/** Cells of the grade sheet as the CSV reader hands them over, the single
    "safe numeric" coercion the dashboard applies to score cells, and Python's
    `int()` on a real number. */
module Cells {

  /** One cell of a score column. `Number` is a cell whose text is accepted
      as a number by the conversion applied to its column: `pd.to_numeric` for
      the total, `float()` for the components. That holds whether the reader
      already parsed the column as numeric or left it as text because some
      other cell is not a number. `Text` is non-empty text that conversion
      rejects. `Blank` is a field the reader reads as missing (NaN): an empty
      field, or one of the reader's default missing-value markers such as
      `NA`, `N/A`, `NULL` or `nan`. */
  datatype Cell = Blank | Number(value: real) | Text(text: string)

  /** A score read from a cell: a number is kept exactly, a blank or
      non-numeric cell reads as 0. This is the `errors='coerce'` + `fillna(0)`
      of the total column, and the intended `except` fallback of the
      component bars (see `Progress.FloatAsWritten` for a blank component). */
  function Coerce(c: Cell): real
  {
    match c
    case Number(v) => v
    case _ => 0.0
  }

  /** Python's `int(x)` for a real `x`: truncation toward zero, not rounding
      and not the ceiling. */
  function PyInt(x: real): (n: int)
    ensures 0.0 <= x ==> 0 <= n && n as real <= x < n as real + 1.0
    ensures x < 0.0 ==> n <= 0 && n as real - 1.0 < x <= n as real
  {
    if x >= 0.0 then x.Floor else -((-x).Floor)
  }
}
