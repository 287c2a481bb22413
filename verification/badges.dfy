/** The badge shown next to the student's name: four tiers checked from the
    highest threshold down, the first match winning. */
module Badges {

  datatype Badge = NeedsAttention | Average | VeryGood | Excellent

  /** Position of a badge in the tier order, lowest first. */
  function Tier(b: Badge): nat
  {
    match b
    case NeedsAttention => 0
    case Average => 1
    case VeryGood => 2
    case Excellent => 3
  }

  /** The badge for a total: every real total gets exactly one badge, each
      badge owns one half-open band, and a boundary value (40, 30, 25) belongs
      to the higher band. Totals outside [0, 50] fall in the end bands. */
  function Classify(total: real): (b: Badge)
    ensures b == Excellent <==> 40.0 <= total
    ensures b == VeryGood <==> 30.0 <= total < 40.0
    ensures b == Average <==> 25.0 <= total < 30.0
    ensures b == NeedsAttention <==> total < 25.0
  {
    if total >= 40.0 then Excellent
    else if total >= 30.0 then VeryGood
    else if total >= 25.0 then Average
    else NeedsAttention
  }

  /** A higher total never earns a lower badge. */
  lemma ClassifyMonotone(s: real, t: real)
    requires s <= t
    ensures Tier(Classify(s)) <= Tier(Classify(t))
  {
  }

  /** Tiers are ordered exactly as their thresholds: a badge strictly above
      another is only reached by a strictly higher total. */
  lemma ClassifyOrderReflectsTotals(s: real, t: real)
    requires Tier(Classify(s)) < Tier(Classify(t))
    ensures s < t
  {
  }
}
