/** Class statistics over the coerced totals: the mean and the maximum shown
    in the stats row. */
module Statistics {
  import opened Roster

  /** Sum of the totals, accumulated left to right. */
  function Sum(s: seq<Record>): real
  {
    if |s| == 0 then 0.0 else Sum(s[..|s| - 1]) + s[|s| - 1].total
  }

  /** The highest total: it is the total of some row and no row is above it. */
  function MaxTotal(s: seq<Record>): (m: real)
    requires |s| > 0
    ensures exists i :: 0 <= i < |s| && s[i].total == m
    ensures forall i :: 0 <= i < |s| ==> s[i].total <= m
  {
    if |s| == 1 then s[0].total
    else
      var m' := MaxTotal(s[..|s| - 1]);
      if s[|s| - 1].total > m' then s[|s| - 1].total else m'
  }

  /** The lowest total: it is the total of some row and no row is below it. */
  function MinTotal(s: seq<Record>): (m: real)
    requires |s| > 0
    ensures exists i :: 0 <= i < |s| && s[i].total == m
    ensures forall i :: 0 <= i < |s| ==> m <= s[i].total
  {
    if |s| == 1 then s[0].total
    else
      var m' := MinTotal(s[..|s| - 1]);
      if s[|s| - 1].total < m' then s[|s| - 1].total else m'
  }

  /** The arithmetic mean of the totals: |s| copies of it add up to the
      sum. */
  function Mean(s: seq<Record>): (m: real)
    requires |s| > 0
    ensures Repeat(|s|, m) == Sum(s)
  {
    var n := |s| as real;
    RepeatIsProduct(|s|, Sum(s) / n);
    Sum(s) / n
  }

  /** The class average lies between the lowest and the highest total. */
  lemma MeanBetweenExtremes(s: seq<Record>)
    requires |s| > 0
    ensures MinTotal(s) <= Mean(s) <= MaxTotal(s)
  {
    SumBetween(s, MinTotal(s), MaxTotal(s));
    AverageBetween(|s|, MinTotal(s), Sum(s), MaxTotal(s));
  }

  /** `k` copies of `c` added up; keeps the bound proofs free of products. */
  function Repeat(k: nat, c: real): real
  {
    if k == 0 then 0.0 else Repeat(k - 1, c) + c
  }

  /** Adding up `k` copies of `c` is multiplying by `k`. */
  lemma {:induction false} RepeatIsProduct(k: nat, c: real)
    ensures Repeat(k, c) == (k as real) * c
  {
    if k > 0 {
      RepeatIsProduct(k - 1, c);
      assert (k as real) * c == ((k - 1) as real) * c + c;
    }
  }

  /** When every total lies in [lo, hi], the sum lies between |s| copies of
      lo and |s| copies of hi. */
  lemma {:induction false} SumBetween(s: seq<Record>, lo: real, hi: real)
    requires forall i :: 0 <= i < |s| ==> lo <= s[i].total <= hi
    ensures Repeat(|s|, lo) <= Sum(s) <= Repeat(|s|, hi)
  {
    if |s| > 0 {
      SumBetween(s[..|s| - 1], lo, hi);
    }
  }

  /** Dividing n copies of lo <= sum <= n copies of hi by n > 0. */
  lemma AverageBetween(n: nat, lo: real, sum: real, hi: real)
    requires 0 < n && Repeat(n, lo) <= sum <= Repeat(n, hi)
    ensures lo <= sum / (n as real) <= hi
    ensures Repeat(n, sum / (n as real)) == sum
  {
    RepeatIsProduct(n, lo);
    RepeatIsProduct(n, hi);
    RepeatIsProduct(n, sum / (n as real));
    var q := sum / (n as real);
    assert (n as real) * q == sum;
  }

  /** Mean and maximum in one pass over the roster. The roster is never empty
      here: the student being shown is one of its rows. */
  method ClassStatistics(roster: seq<Record>) returns (average: real, highest: real)
    requires |roster| > 0
    ensures average == Mean(roster)
    ensures highest == MaxTotal(roster)
    ensures MinTotal(roster) <= average <= highest
  {
    var sum := roster[0].total;
    highest := roster[0].total;
    var i := 1;
    while i < |roster|
      invariant 1 <= i <= |roster|
      invariant sum == Sum(roster[..i])
      invariant highest == MaxTotal(roster[..i])
    {
      assert roster[..i + 1][..i] == roster[..i];
      sum := sum + roster[i].total;
      if roster[i].total > highest {
        highest := roster[i].total;
      }
      i := i + 1;
    }
    assert roster[..i] == roster;
    average := sum / (|roster| as real);
    MeanBetweenExtremes(roster);
  }
}
