/** The four progress bars of the grade-details card: each component score
    drawn as a percentage of its maximum, capped at 100. */
module Progress {
  import opened Cells
  import opened Roster

  /** The maxima of the four component bars: midterm, formative, report and
      discussion. */
  const MidtermMax: real := 15.0
  const FormativeMax: real := 40.0
  const ReportMax: real := 10.0
  const DiscussionMax: real := 10.0

  function Min(a: real, b: real): real
  {
    if b < a then b else a
  }

  /** Width of a bar: `value / maxVal * 100`, capped above at 100 and not
      clamped below. */
  function Percent(value: real, maxVal: real): (p: real)
    requires maxVal > 0.0
    ensures p <= 100.0
    ensures value >= maxVal <==> p == 100.0
    ensures value < 0.0 <==> p < 0.0
    ensures value * 100.0 == p * maxVal || value >= maxVal
  {
    Min((value / maxVal) * 100.0, 100.0)
  }

  /** A larger score never draws a shorter bar. */
  lemma PercentMonotone(a: real, b: real, maxVal: real)
    requires maxVal > 0.0 && a <= b
    ensures Percent(a, maxVal) <= Percent(b, maxVal)
  {
    assert a / maxVal <= b / maxVal;
  }

  /** The component bars of a student's card, corrected: a blank or
      unreadable cell draws as 0. See `BarAsWritten` for what the dashboard
      does with a blank cell. */
  function Bars(r: Record): (bars: seq<real>)
    ensures |bars| == 4
    ensures forall i :: 0 <= i < 4 ==> bars[i] <= 100.0
    ensures bars[0] == 100.0 <==> Coerce(r.midterm) >= MidtermMax
    ensures bars[1] == 100.0 <==> Coerce(r.formative) >= FormativeMax
    ensures bars[2] == 100.0 <==> Coerce(r.report) >= ReportMax
    ensures bars[3] == 100.0 <==> Coerce(r.discussion) >= DiscussionMax
    ensures forall i :: 0 <= i < 4 ==>
      (0.0 <= bars[i] <==> (0.0 <= Coerce([r.midterm, r.formative, r.report, r.discussion][i])))
    // below the cap, 1 point of midterm is 100/15 of the bar, and so on
    ensures Coerce(r.midterm) < MidtermMax ==> Coerce(r.midterm) * 20.0 == bars[0] * 3.0
    ensures Coerce(r.formative) < FormativeMax ==> Coerce(r.formative) * 5.0 == bars[1] * 2.0
    ensures Coerce(r.report) < ReportMax ==> Coerce(r.report) * 10.0 == bars[2]
    ensures Coerce(r.discussion) < DiscussionMax ==> Coerce(r.discussion) * 10.0 == bars[3]
  {
    [Percent(Coerce(r.midterm), MidtermMax),
     Percent(Coerce(r.formative), FormativeMax),
     Percent(Coerce(r.report), ReportMax),
     Percent(Coerce(r.discussion), DiscussionMax)]
  }

  /** A Python float as far as the bar code can see it: a finite value or
      NaN. */
  datatype PyFloat = Finite(value: real) | NaN

  /** `float(value)` as the bar code calls it. The reader turns a missing
      cell (empty, or a marker such as `N/A`) into NaN, and `float` of NaN returns NaN without raising, so only a
      non-numeric text reaches the `0.0` fallback. */
  function FloatAsWritten(c: Cell): (f: PyFloat)
    ensures f.NaN? <==> c.Blank?
    ensures !c.Blank? ==> f == Finite(Coerce(c))
  {
    match c
    case Blank => NaN
    case Number(v) => Finite(v)
    case Text(_) => Finite(0.0)
  }

  /** The bar width as the dashboard computes it. Python's `min(x, 100)`
      with a NaN first argument returns NaN, since `100 < NaN` is false, so a
      NaN value gives a NaN width; any other width is capped at 100. */
  function BarAsWritten(c: Cell, maxVal: real): (w: PyFloat)
    requires maxVal > 0.0
    ensures w.NaN? <==> FloatAsWritten(c).NaN?
    ensures w.Finite? ==> w.value <= 100.0
  {
    match FloatAsWritten(c)
    case NaN => NaN
    case Finite(v) => Finite(Percent(v, maxVal))
  }

  /** As written, a blank midterm cell (empty or `N/A`) yields a NaN width: the bar is
      labelled "nan / 15" and styled `width: nan%`, a declaration a browser
      drops, so the fill most likely takes its automatic, full width. The
      corrected bars of an all-blank row are all empty. */
  lemma BlankCellGivesNaNBar()
    ensures BarAsWritten(Blank, MidtermMax) == NaN
    ensures Bars(Record("1", "", Blank, Blank, Blank, Blank, 0.0)) == [0.0, 0.0, 0.0, 0.0]
  {
  }

  /** Apart from the blank cell, the dashboard's bar and the modelled bar
      agree; for a blank cell the model draws an empty bar. */
  lemma BarsAgreeExceptBlank(c: Cell, maxVal: real)
    requires maxVal > 0.0
    ensures c.Blank? <==> BarAsWritten(c, maxVal) == NaN
    ensures !c.Blank? ==> BarAsWritten(c, maxVal) == Finite(Percent(Coerce(c), maxVal))
    ensures c.Blank? ==> Percent(Coerce(c), maxVal) == 0.0
  {
  }
}
