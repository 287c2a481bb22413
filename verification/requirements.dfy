/** The final-exam calculator: for each target course total, how many points
    the student still needs on the final exam, which is out of 50. */
module Requirements {
  import opened Cells

  /** What the calculator shows for one target. `shown` is Python's `int()`
      of the points still needed. */
  datatype Outcome = AlreadyAchieved | Achievable(shown: int) | Unreachable(shown: int)

  /** A target course total and its label. */
  datatype Target = Target(name: string, points: int)

  /** The five targets, in the order the table lists them. */
  const Targets: seq<Target> := [
    Target("مقبول (50)", 50),
    Target("متوسط (60)", 60),
    Target("جيد (70)", 70),
    Target("جيد جداً (80)", 80),
    Target("امتياز (90)", 90)
  ]

  /** The most the final exam can contribute. */
  const FinalExamMax: real := 50.0

  /** How bad an outcome is, best first. */
  function Severity(o: Outcome): nat
  {
    match o
    case AlreadyAchieved => 0
    case Achievable(_) => 1
    case Unreachable(_) => 2
  }

  /** The outcome for one target. With `req` the target minus the current
      total: exactly one of "already achieved" (req <= 0), "unreachable"
      (req > 50) and "achievable" holds, and every other outcome shows `req`
      truncated, which may be below what is actually needed. */
  function Requirement(target: int, total: real): (o: Outcome)
    ensures var req := target as real - total;
      && (o.AlreadyAchieved? <==> req <= 0.0)
      && (o.Unreachable? <==> req > FinalExamMax)
      && (o.Achievable? <==> 0.0 < req <= FinalExamMax)
      && (!o.AlreadyAchieved? ==> o.shown as real <= req < o.shown as real + 1.0)
      && (o.Achievable? ==> 0 <= o.shown <= 50)
      && (o.Unreachable? ==> o.shown >= 50)
  {
    var req := target as real - total;
    if req <= 0.0 then AlreadyAchieved
    else if req > FinalExamMax then Unreachable(PyInt(req))
    else Achievable(PyInt(req))
  }

  /** One line of the calculator table. */
  datatype Row = Row(name: string, outcome: Outcome)

  /** The calculator table: one row per target, in target order. */
  function Table(total: real): (rows: seq<Row>)
    ensures |rows| == |Targets|
    ensures forall i :: 0 <= i < |rows| ==>
      && rows[i].name == Targets[i].name
      && rows[i].outcome == Requirement(Targets[i].points, total)
  {
    seq(|Targets|, i requires 0 <= i < |Targets| => Row(Targets[i].name, Requirement(Targets[i].points, total)))
  }

  /** For a fixed total, a higher target never has a better outcome. */
  lemma RequirementMonotoneInTarget(lo: int, hi: int, total: real)
    requires lo <= hi
    ensures Severity(Requirement(lo, total)) <= Severity(Requirement(hi, total))
  {
  }

  /** For a fixed target, a higher total never has a worse outcome. */
  lemma RequirementMonotoneInTotal(target: int, lo: real, hi: real)
    requires lo <= hi
    ensures Severity(Requirement(target, hi)) <= Severity(Requirement(target, lo))
  {
  }

  /** Down the table outcomes only get worse: first the targets already met,
      then the achievable ones, then the unreachable ones. */
  lemma TableOrdered(total: real)
    ensures forall i, j :: 0 <= i < j < |Table(total)| ==>
      Severity(Table(total)[i].outcome) <= Severity(Table(total)[j].outcome)
  {
    var rows := Table(total);
    forall i, j | 0 <= i < j < |rows|
      ensures Severity(rows[i].outcome) <= Severity(rows[j].outcome)
    {
      assert Targets[i].points <= Targets[j].points;
      RequirementMonotoneInTarget(Targets[i].points, Targets[j].points, total);
    }
  }

  /** Raising the total never makes any row of the table worse. */
  lemma TableMonotoneInTotal(lo: real, hi: real)
    requires lo <= hi
    ensures forall i :: 0 <= i < |Targets| ==>
      Severity(Table(hi)[i].outcome) <= Severity(Table(lo)[i].outcome)
  {
    forall i | 0 <= i < |Targets|
      ensures Severity(Table(hi)[i].outcome) <= Severity(Table(lo)[i].outcome)
    {
      RequirementMonotoneInTotal(Targets[i].points, lo, hi);
    }
  }

  /** The shown value truncates: half a point short of 50 shows "0 needed"
      even though a final-exam score of 0 leaves the student below 50. */
  lemma ShownValueTruncates()
    ensures Requirement(50, 49.5) == Achievable(0)
    ensures 49.5 + (Requirement(50, 49.5).shown as real) < 50.0
  {
  }

  /** Total 45: every target is achievable, needing 5, 15, 25, 35 and 45. */
  lemma TableAtFortyFive()
    ensures Table(45.0) == [
      Row(Targets[0].name, Achievable(5)),
      Row(Targets[1].name, Achievable(15)),
      Row(Targets[2].name, Achievable(25)),
      Row(Targets[3].name, Achievable(35)),
      Row(Targets[4].name, Achievable(45))]
  {
  }

  /** Total 50: the pass mark is already met; the rest need 10 to 40. */
  lemma TableAtFifty()
    ensures Table(50.0) == [
      Row(Targets[0].name, AlreadyAchieved),
      Row(Targets[1].name, Achievable(10)),
      Row(Targets[2].name, Achievable(20)),
      Row(Targets[3].name, Achievable(30)),
      Row(Targets[4].name, Achievable(40))]
  {
  }

  /** Total 0: 90 needs more than the final exam can give. */
  lemma NinetyFromZeroIsUnreachable()
    ensures Requirement(90, 0.0) == Unreachable(90)
  {
  }
}
