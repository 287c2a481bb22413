/** The student's rank: the roster is sorted by total, highest first, and the
    rank is the 1-based position of the first row carrying the student's code.
    The sort the dashboard uses is not guaranteed to be stable, so the rank is
    stated for every ordering that is a non-increasing permutation of the
    roster; `SortDescending` is one such ordering (the stable one). */
module Ranking {
  import opened Roster

  /** Totals never increase along the sequence. */
  predicate NonIncreasing(s: seq<Record>)
  {
    forall i, j :: 0 <= i < j < |s| ==> s[i].total >= s[j].total
  }

  /** `sorted` is an admissible result of sorting `roster` by total,
      highest first, whatever the order among equal totals. */
  predicate IsSortedPermutation(sorted: seq<Record>, roster: seq<Record>)
  {
    && |sorted| == |roster|
    && multiset(sorted) == multiset(roster)
    && NonIncreasing(sorted)
  }

  /** Inserts `x` into a non-increasing sequence, before every row whose total
      is not above its own. */
  function Insert(x: Record, s: seq<Record>): (r: seq<Record>)
    requires NonIncreasing(s)
    ensures multiset(r) == multiset(s) + multiset{x}
    ensures NonIncreasing(r)
    ensures |r| == |s| + 1
    ensures r[0] == x || (|s| > 0 && r[0] == s[0])
  {
    if |s| == 0 || x.total >= s[0].total then [x] + s
    else
      var rest := Insert(x, s[1..]);
      assert s == [s[0]] + s[1..];
      assert s[0].total >= rest[0].total;
      [s[0]] + rest
  }

  /** Sorting by total, highest first; equal totals keep their roster order. */
  function SortDescending(s: seq<Record>): (r: seq<Record>)
    ensures IsSortedPermutation(r, s)
  {
    if |s| == 0 then []
    else
      assert s == [s[0]] + s[1..];
      assert |multiset(s)| == |s|;
      Insert(s[0], SortDescending(s[1..]))
  }

  /** 1-based position of the first row of `sorted` carrying `code`. */
  function Rank(sorted: seq<Record>, code: string): (rank: nat)
    requires exists i :: 0 <= i < |sorted| && sorted[i].code == code
    ensures 1 <= rank <= |sorted|
    ensures sorted[rank - 1].code == code
    ensures forall j :: 0 <= j < rank - 1 ==> sorted[j].code != code
  {
    FirstWithCode(sorted, code).value + 1
  }

  /** Number of rows satisfying `p`. */
  function Count(s: seq<Record>, p: Record -> bool): nat
  {
    if |s| == 0 then 0 else (if p(s[0]) then 1 else 0) + Count(s[1..], p)
  }

  function Above(t: real): Record -> bool
  {
    (r: Record) => r.total > t
  }

  function AtLeast(t: real): Record -> bool
  {
    (r: Record) => r.total >= t
  }

  lemma {:induction false} CountAppend(u: seq<Record>, v: seq<Record>, p: Record -> bool)
    ensures Count(u + v, p) == Count(u, p) + Count(v, p)
  {
    if |u| > 0 {
      assert (u + v)[1..] == u[1..] + v;
      CountAppend(u[1..], v, p);
    } else {
      assert u + v == v;
    }
  }

  /** Counting depends only on which rows there are, not on their order. */
  lemma {:induction false} CountPermutation(a: seq<Record>, b: seq<Record>, p: Record -> bool)
    requires multiset(a) == multiset(b)
    ensures Count(a, p) == Count(b, p)
  {
    if |a| > 0 {
      var x := a[0];
      assert x in multiset(b);
      var i :| 0 <= i < |b| && b[i] == x;
      var b' := b[..i] + b[i + 1..];
      assert b == b[..i] + ([b[i]] + b[i + 1..]);
      assert a == [x] + a[1..];
      assert multiset(b) == multiset(b[..i]) + multiset{x} + multiset(b[i + 1..]);
      assert multiset(b') == multiset(b[..i]) + multiset(b[i + 1..]);
      assert multiset(a) == multiset{x} + multiset(a[1..]);
      assert multiset(a[1..]) == multiset(a) - multiset{x};
      assert multiset(b') == multiset(b) - multiset{x};
      CountPermutation(a[1..], b', p);
      CountAppend(b[..i], [b[i]] + b[i + 1..], p);
      CountAppend(b[..i], b[i + 1..], p);
    }
  }

  /** If every row of `s` satisfies `p`, all of them are counted. */
  lemma {:induction false} CountAll(s: seq<Record>, p: Record -> bool)
    requires forall k :: 0 <= k < |s| ==> p(s[k])
    ensures Count(s, p) == |s|
  {
    if |s| > 0 {
      CountAll(s[1..], p);
    }
  }

  /** If no row of `s` satisfies `p`, the count is zero. */
  lemma {:induction false} CountNone(s: seq<Record>, p: Record -> bool)
    requires forall k :: 0 <= k < |s| ==> !p(s[k])
    ensures Count(s, p) == 0
  {
    if |s| > 0 {
      CountNone(s[1..], p);
    }
  }

  /** A count never exceeds the length. */
  lemma {:induction false} CountAtMostLength(s: seq<Record>, p: Record -> bool)
    ensures Count(s, p) <= |s|
  {
    if |s| > 0 {
      CountAtMostLength(s[1..], p);
    }
  }

  /** Every row of the roster appears in any sorted permutation of it, so a
      code present in the roster has a rank. */
  lemma CodeSurvivesSort(sorted: seq<Record>, roster: seq<Record>, code: string)
    requires IsSortedPermutation(sorted, roster)
    requires exists i :: 0 <= i < |roster| && roster[i].code == code
    ensures exists i :: 0 <= i < |sorted| && sorted[i].code == code
  {
    var i :| 0 <= i < |roster| && roster[i].code == code;
    assert roster[i] in multiset(roster);
    assert roster[i] in multiset(sorted);
  }

  /** Whatever order the sort gives equal totals, the rank is bracketed by
      the roster alone: with `t` the total of the row found at that rank, every
      row scoring strictly more than `t` is ranked ahead of it, and every row
      ranked ahead of it scores at least `t`. */
  lemma {:induction false} RankBounds(sorted: seq<Record>, roster: seq<Record>, code: string)
    requires IsSortedPermutation(sorted, roster)
    requires exists i :: 0 <= i < |sorted| && sorted[i].code == code
    ensures var rank := Rank(sorted, code);
      var t := sorted[rank - 1].total;
      Count(roster, Above(t)) < rank <= Count(roster, AtLeast(t))
  {
    var rank := Rank(sorted, code);
    var k := rank - 1;
    var t := sorted[k].total;
    var before, after := sorted[..k], sorted[k..];
    assert sorted == before + after;
    CountPermutation(sorted, roster, Above(t));
    CountPermutation(sorted, roster, AtLeast(t));
    CountAppend(before, after, Above(t));
    CountAppend(before, after, AtLeast(t));
    CountAtMostLength(before, Above(t));
    CountNone(after, Above(t));
    CountAll(before, AtLeast(t));
    assert after == [sorted[k]] + after[1..];
    assert Count(after, AtLeast(t)) >= 1;
  }

  /** No two rows share a login code. */
  predicate UniqueCodes(roster: seq<Record>)
  {
    forall i, j :: 0 <= i < j < |roster| ==> roster[i].code != roster[j].code
  }

  /** With unique codes the row found at the student's rank is the student's
      own row, so the rank is bracketed by the student's own total. */
  lemma RankOfStudent(sorted: seq<Record>, roster: seq<Record>, student: Record)
    requires IsSortedPermutation(sorted, roster)
    requires UniqueCodes(roster)
    requires student in roster
    ensures exists i :: 0 <= i < |sorted| && sorted[i].code == student.code
    ensures sorted[Rank(sorted, student.code) - 1] == student
    ensures Count(roster, Above(student.total)) < Rank(sorted, student.code)
                                               <= Count(roster, AtLeast(student.total))
  {
    var i :| 0 <= i < |roster| && roster[i] == student;
    CodeSurvivesSort(sorted, roster, student.code);
    var found := sorted[Rank(sorted, student.code) - 1];
    assert found in multiset(sorted);
    assert found in multiset(roster);
    var j :| 0 <= j < |roster| && roster[j] == found;
    assert i == j;
    RankBounds(sorted, roster, student.code);
  }

  /** When no other row shares the student's total, ties cannot matter: the
      rank is one more than the number of students who scored strictly more,
      for every admissible sort. */
  lemma RankWithoutTies(sorted: seq<Record>, roster: seq<Record>, student: Record)
    requires IsSortedPermutation(sorted, roster)
    requires UniqueCodes(roster)
    requires student in roster
    requires forall r :: r in roster && r != student ==> r.total != student.total
    ensures exists i :: 0 <= i < |sorted| && sorted[i].code == student.code
    ensures Rank(sorted, student.code) == Count(roster, Above(student.total)) + 1
  {
    RankOfStudent(sorted, roster, student);
    AtLeastSplits(roster, student);
  }

  /** With the student's total unshared, "at least" counts exactly the
      student on top of "strictly above". */
  lemma {:induction false} AtLeastSplits(roster: seq<Record>, student: Record)
    requires UniqueCodes(roster)
    requires student in roster
    requires forall r :: r in roster && r != student ==> r.total != student.total
    ensures Count(roster, AtLeast(student.total)) == Count(roster, Above(student.total)) + 1
  {
    var t := student.total;
    if roster[0] == student {
      var rest := roster[1..];
      forall k | 0 <= k < |rest|
        ensures !AtLeast(t)(rest[k]) || Above(t)(rest[k])
      {
        assert rest[k] == roster[k + 1];
        assert rest[k] != student;
      }
      AtLeastMatchesAbove(rest, t);
    } else {
      assert forall r :: r in roster[1..] ==> r in roster;
      AtLeastSplits(roster[1..], student);
    }
  }

  /** Where no row sits exactly at `t`, "at least" and "above" agree. */
  lemma {:induction false} AtLeastMatchesAbove(s: seq<Record>, t: real)
    requires forall k :: 0 <= k < |s| ==> !AtLeast(t)(s[k]) || Above(t)(s[k])
    ensures Count(s, AtLeast(t)) == Count(s, Above(t))
  {
    if |s| > 0 {
      AtLeastMatchesAbove(s[1..], t);
    }
  }
}
