/** Everything the dashboard computes for a logged-in student, gathered in
    one place: badge, rank, class mean and maximum, the component bars and the
    final-exam table. */
module Evaluator {
  import opened Cells
  import opened Roster
  import opened Badges
  import opened Statistics
  import opened Ranking
  import opened Requirements
  import opened Progress

  datatype Evaluation = Evaluation(
    badge: Badge,
    rank: nat,
    average: real,
    highest: real,
    bars: seq<real>,
    table: seq<Row>)

  /** The student who logged in is a row of the roster, so the roster is not
      empty and the evaluation below can be run for them. */
  lemma LoggedInStudentIsInRoster(roster: seq<Record>, key: string)
    requires LogIn(roster, key).LoggedIn?
    ensures LogIn(roster, key).student in roster
    ensures |roster| > 0
  {
  }

  /** The dashboard for `student`. `sorted` is the roster as the sort by total
      (highest first) returned it; any order among equal totals is allowed. */
  method Evaluate(roster: seq<Record>, student: Record, sorted: seq<Record>) returns (e: Evaluation)
    requires student in roster
    requires IsSortedPermutation(sorted, roster)
    ensures e.badge == Classify(student.total)
    ensures 1 <= e.rank <= |roster|
    ensures sorted[e.rank - 1].code == student.code
    ensures FirstWithCode(sorted, student.code) == Some(e.rank - 1)
    ensures Count(roster, Above(sorted[e.rank - 1].total)) < e.rank
    ensures e.average == Mean(roster)
    ensures e.highest == MaxTotal(roster)
    ensures e.bars == Bars(student)
    ensures e.table == Table(student.total)
  {
    var average, highest := ClassStatistics(roster);
    CodeSurvivesSort(sorted, roster, student.code);
    var rank := Rank(sorted, student.code);
    RankBounds(sorted, roster, student.code);
    e := Evaluation(Classify(student.total), rank, average, highest, Bars(student), Table(student.total));
  }

  /** A roster row with the given code and total and blank components, for
      the worked examples. */
  function Student(code: string, total: real): Record
  {
    Record(code, "", Blank, Blank, Blank, Blank, total)
  }

  /** Totals 10, 50, 50, 30 under the stable sort: the two 50s keep their
      roster order. Built up one row at a time from the back. */
  lemma StableSortExample(a: Record, b: Record, c: Record, d: Record)
    requires a.total == 10.0 && b.total == 50.0 && c.total == 50.0 && d.total == 30.0
    ensures SortDescending([a, b, c, d]) == [b, c, d, a]
  {
    SortThreeExample(b, c, d);
    assert [a, b, c, d][1..] == [b, c, d];
    InsertLowestExample(a, b, c, d);
  }

  /** The last three rows are already in order. */
  lemma SortThreeExample(b: Record, c: Record, d: Record)
    requires b.total == 50.0 && c.total == 50.0 && d.total == 30.0
    ensures SortDescending([b, c, d]) == [b, c, d]
  {
    SortTwoExample(c, d);
  }

  /** The last two rows are already in order. */
  lemma SortTwoExample(c: Record, d: Record)
    requires c.total == 50.0 && d.total == 30.0
    ensures SortDescending([c, d]) == [c, d]
  {
  }

  /** The 10 goes to the back of the sorted three. */
  lemma InsertLowestExample(a: Record, b: Record, c: Record, d: Record)
    requires a.total == 10.0 && b.total == 50.0 && c.total == 50.0 && d.total == 30.0
    requires NonIncreasing([b, c, d])
    ensures Insert(a, [b, c, d]) == [b, c, d, a]
  {
    assert [b, c, d][1..] == [c, d];
    assert [c, d][1..] == [d];
    assert [d][1..] == [];
    InsertLowerExample(a, c, d);
  }

  /** The 10 goes below the 50 and the 30. */
  lemma InsertLowerExample(a: Record, c: Record, d: Record)
    requires a.total == 10.0 && c.total == 50.0 && d.total == 30.0
    ensures Insert(a, [c, d]) == [c, d, a]
  {
  }

  /** With that order the first 50 ranks 1st and the second 50 ranks 2nd. */
  lemma StableRankExample(a: Record, b: Record, c: Record, d: Record)
    requires a.total == 10.0 && b.total == 50.0 && c.total == 50.0 && d.total == 30.0
    requires b.code != c.code
    ensures exists i :: 0 <= i < 4 && SortDescending([a, b, c, d])[i].code == c.code
    ensures Rank(SortDescending([a, b, c, d]), b.code) == 1
    ensures Rank(SortDescending([a, b, c, d]), c.code) == 2
  {
    StableSortExample(a, b, c, d);
    FirstTwoRanks([b, c, d, a]);
  }

  /** In any order, the first row ranks 1st and a second row with another
      code ranks 2nd. */
  lemma FirstTwoRanks(sorted: seq<Record>)
    requires |sorted| >= 2 && sorted[0].code != sorted[1].code
    ensures Rank(sorted, sorted[0].code) == 1
    ensures Rank(sorted, sorted[1].code) == 2
  {
  }

  /** Totals 10, 20, 30: mean 20, maximum 30. */
  lemma StatisticsExample()
    ensures var roster := [Student("a", 10.0), Student("b", 20.0), Student("c", 30.0)];
      Mean(roster) == 20.0 && MaxTotal(roster) == 30.0
  {
    var roster := [Student("a", 10.0), Student("b", 20.0), Student("c", 30.0)];
    assert roster[..2] == [Student("a", 10.0), Student("b", 20.0)];
    assert roster[..2][..1] == [Student("a", 10.0)];
    assert roster[..2][..1][..0] == [];
    assert Sum(roster[..2][..1]) == 10.0;
    assert Sum(roster[..2]) == 30.0;
    assert Sum(roster) == 60.0;
    assert MaxTotal(roster[..2]) == 20.0;
  }

  /** A duplicated code: login opens the first roster row (total 20), but
      the rank is that of the first sorted row with the code, the other row
      (total 40). The rank shown is 1 although two rows score above 20. */
  lemma DuplicateCodeRankExample(s: Record, x: Record, y: Record)
    requires s.code == "a" && x.code == "a" && y.code == "b"
    requires s.total == 20.0 && x.total == 40.0 && y.total == 30.0
    ensures LogIn([s, x, y], "a") == LoggedIn(s)
    ensures IsSortedPermutation([x, y, s], [s, x, y])
    ensures Rank([x, y, s], "a") == 1
    ensures Count([s, x, y], Above(s.total)) == 2
  {
    assert multiset([x, y, s]) == multiset([s, x, y]);
    assert [s, x, y][1..] == [x, y] && [x, y][1..] == [y] && [y][1..] == [];
    var above := Above(s.total);
    assert !above(s) && above(x) && above(y);
    assert Count([y], above) == 1;
    assert Count([x, y], above) == 2;
  }
}
