# Grade portal evaluation model

A Dafny model of the grade-evaluation logic of the student grade portal
(`app.py`). A student enters a secret login code, and the dashboard looks up
their row in the grade sheet. It then shows:

- a badge for their total out of 50;
- progress bars for the four component scores;
- their rank in the class, and the class mean and maximum;
- a calculator giving the points still needed on the final exam (out of 50)
  for each of the five target course totals 50, 60, 70, 80 and 90.

The model lifts this logic out of the dashboard's top-level procedure into
pure functions over an immutable roster (`seq<Record>`). Scores are exact
`real`s. Modules:

- `Cells` (`cells.dfy`): score cells as read (`Blank`, `Number`, `Text`).
  Also the single coercion of a score cell to a number (a non-number reads
  as 0), and Python's truncating `int()`.
- `Roster` (`roster.dfy`): raw and loaded rows, loading (the total column is
  coerced), and the login lookup by code.
- `Badges` (`badges.dfy`): the four badge tiers.
- `Statistics` (`statistics.dfy`): sum, maximum, minimum, mean, and a
  one-pass method computing the mean and maximum.
- `Ranking` (`ranking.dfy`): what counts as a valid result of sorting by
  total (highest first), a stable insertion sort that produces one, rank
  lookup, and bounds on the rank that hold whatever order ties get.
- `Requirements` (`requirements.dfy`): the outcome for one target, and the
  five-row table.
- `Progress` (`progress.dfy`): bar percentages and the four component bars.
  Also the bar as the dashboard actually computes it for a blank cell (see
  Findings).
- `Evaluator` (`evaluator.dfy`): everything shown for a logged-in student,
  plus worked examples.

The model never recomputes a total from its parts. The sheet's total column
is taken as given, as the dashboard does.

Login codes are read as text, so `"007"` and `"7"` are different codes. A
code cell the reader reads as missing is modelled as the empty string. That
covers an empty field and also the reader's default missing-value markers
(`NA`, `N/A`, `NULL`, `nan` and the like), which it reads as missing even
under text reading. Since an empty key never
triggers a lookup, such a row can never log in. This matches the dashboard:
a missing code compares unequal to every key.

The sort the dashboard uses to rank students is not guaranteed to be
stable. So `Evaluate` takes the sorted roster as a parameter, and accepts
any non-increasing permutation of the roster. Every rank property is proved
for all such orderings.

The calculator shows `int(req)`, a truncation, not a ceiling: a student 0.5
points short is told they need 0 (`ShownValueTruncates`).

Totals 10, 50, 50, 30 put the two 50s at ranks 1 and 2 under the stable order
(`StableRankExample`).

Login takes the first roster row carrying the key, but the rank is that of
the first sorted row carrying the same code. With a duplicated code these can
be different rows, and the dashboard then shows another row's rank
(`DuplicateCodeRankExample`). So the rank is bracketed by the total of the row
found in the sorted order (`RankBounds`), and by the student's own total only
when codes are unique (`RankOfStudent`).

## Model

| member | source | states |
|---|---|---|
| `Cells.PyInt` | app.py:267-268 | `int()` truncates toward zero: for x >= 0 the result n satisfies n <= x < n + 1, for x < 0 it satisfies n - 1 < x <= n |
| `Roster.Load` | app.py:166-169 | Loading keeps every row in order, with code, name and components unchanged; a total becomes its number, or 0 when the cell is not a number |
| `Roster.FirstWithCode` | app.py:191-194 | Returns the least index whose code equals the key; returns none exactly when no row carries the key |
| `Roster.LogIn` | app.py:189-197 | An empty key gives MissingKey and does no lookup; a key no row carries gives InvalidKey; otherwise the student is the first roster row whose code equals the key exactly |
| `Roster.BlankCodeNeverLogsIn` | app.py:190-191 | A row whose code cell is missing (empty, or a marker such as `NA`) can never be the row that logs in |
| `Roster.LeadingZerosMatter` | app.py:191 | Codes compare as text: "7" does not open the row of "007", while "007" does |
| `Roster.FirstWithCodeIgnoresSuffix` | app.py:191-194 | Appending rows never changes a match that was already found |
| `Roster.LogInIgnoresLaterRows` | app.py:191-194 | A duplicated code always resolves to its first row: rows after the match do not affect who logs in |
| `Badges.Classify` | app.py:204-207 | Every real total gets exactly one badge. Excellent is [40, inf), VeryGood [30, 40), Average [25, 30) and NeedsAttention below 25; each boundary goes to the higher tier |
| `Badges.ClassifyMonotone` | app.py:204-207 | A higher total never earns a lower badge |
| `Badges.ClassifyOrderReflectsTotals` | app.py:204-207 | A strictly higher badge implies a strictly higher total |
| `Statistics.MaxTotal` | app.py:239 | The maximum is the total of some row, and no row's total exceeds it |
| `Statistics.MinTotal` | app.py:238 | The minimum is the total of some row, and no row's total is below it; this is the lower bound for the mean |
| `Statistics.Mean` | app.py:238 | The class mean is the value whose |roster| copies add up to the sum of the totals |
| `Statistics.MeanBetweenExtremes` | app.py:238 | The class mean lies between the lowest and the highest total |
| `Statistics.ClassStatistics` | app.py:238-239 | A single pass over a non-empty roster returns the mean and the maximum, with the mean between the lowest and the highest total. The maximum is the one `MaxTotal` specifies: attained by a row and bounding every row |
| `Ranking.Insert` | app.py:240 | Inserting into a non-increasing sequence keeps it non-increasing and adds exactly that one row |
| `Ranking.SortDescending` | app.py:240 | The stable sort returns a permutation of the roster whose totals never increase |
| `Ranking.Rank` | app.py:241 | The rank r satisfies 1 <= r <= n; row r carries the code; no earlier row carries it |
| `Ranking.CodeSurvivesSort` | app.py:240-241 | A code present in the roster is present in every valid sorted order, so it always has a rank |
| `Ranking.RankBounds` | app.py:240-241 | For any valid sorted order, let t be the total of the row found at the rank. Then (rows of the roster with a total above t) < rank <= (rows with a total of at least t) |
| `Ranking.RankOfStudent` | app.py:240-241 | With unique codes, the row at the rank is the student's own row. The rank is then bracketed by the number of rows scoring above the student and the number scoring at least as much |
| `Ranking.RankWithoutTies` | app.py:240-241 | When no other row shares the student's total, every valid sort gives rank = 1 + (number of rows scoring strictly more) |
| `Requirements.Requirement` | app.py:265-268 | With req = target - total, exactly one outcome holds: AlreadyAchieved iff req <= 0, Unreachable iff req > 50, Achievable otherwise. Every shown value n satisfies n <= req < n + 1, so Achievable shows 0..50 and Unreachable shows at least 50 |
| `Requirements.Table` | app.py:262-268 | Exactly one row per target, in the target order 50, 60, 70, 80, 90, each row carrying its target's label and outcome |
| `Requirements.RequirementMonotoneInTarget` | app.py:264-267 | For a fixed total, a higher target never has a better outcome |
| `Requirements.RequirementMonotoneInTotal` | app.py:264-267 | For a fixed target, a higher total never has a worse outcome |
| `Requirements.TableOrdered` | app.py:262-268 | Down the table the outcomes run from AlreadyAchieved to Achievable to Unreachable, never backwards |
| `Requirements.TableMonotoneInTotal` | app.py:262-268 | Raising the total never makes any row of the table worse |
| `Requirements.ShownValueTruncates` | app.py:268 | At total 49.5 the pass row shows Achievable(0), though a final score of 0 leaves the total below 50 |
| `Requirements.TableAtFortyFive` | app.py:262-268 | Total 45 gives Achievable 5, 15, 25, 35 and 45 |
| `Requirements.TableAtFifty` | app.py:262-268 | Total 50 gives AlreadyAchieved for the pass target, then Achievable 10, 20, 30 and 40 |
| `Requirements.NinetyFromZeroIsUnreachable` | app.py:262-267 | From a total of 0, the target 90 is Unreachable and shows 90 |
| `Progress.Percent` | app.py:150 | The bar is at most 100; it is 100 exactly when value >= max; it is negative exactly when the value is (no lower clamp); below the cap it is proportional to value / max |
| `Progress.PercentMonotone` | app.py:150 | A larger score never draws a shorter bar |
| `Progress.Bars` | app.py:232-235 | The corrected bars: four bars with maxima 15, 40, 10 and 10, where a blank cell gives 0 (the dashboard gives NaN). Below the cap each bar is its coerced component times 100 over its maximum (a 7.5 midterm draws 50); each is at most 100, full exactly when the component reaches its maximum, and non-negative exactly when the component is |
| `Progress.FloatAsWritten` | app.py:148-149 | As written, `float(value)` is NaN exactly for a blank cell; for every other cell it agrees with the coercion (a number kept, non-numeric text 0.0) |
| `Progress.BarAsWritten` | app.py:148-150 | As written, the bar width is NaN exactly when the converted value is NaN (a blank cell); any other width is at most 100 |
| `Progress.BlankCellGivesNaNBar` | app.py:148-150 | As written, a blank midterm cell yields a NaN bar width; the corrected bars of an all-blank row are all 0 |
| `Progress.BarsAgreeExceptBlank` | app.py:148-150 | The dashboard's bar is NaN exactly for a blank cell; otherwise it equals the modelled bar, and the modelled bar of a blank cell is 0 |
| `Evaluator.LoggedInStudentIsInRoster` | app.py:191-194 | A successful login yields a roster row, so the roster is non-empty and the student can be evaluated |
| `Evaluator.Evaluate` | app.py:201-268 | For a roster row and any valid sorted order, returns the student's badge, the class mean and maximum, the corrected bars (a blank cell gives 0 where the dashboard gives NaN) and the table. The rank r is 1 <= r <= n, and row r is the first row of the sorted order carrying the student's code. r exceeds the number of roster rows scoring above that row |
| `Evaluator.StableSortExample` | app.py:240 | Totals 10, 50, 50, 30 sort under the stable order to 50, 50, 30, 10, with the two 50s in roster order |
| `Evaluator.StableRankExample` | app.py:240-241 | In that order the first 50 ranks 1st and the second ranks 2nd |
| `Evaluator.FirstTwoRanks` | app.py:241 | The first row of the sorted roster ranks 1st; a second row with a different code ranks 2nd |
| `Evaluator.StatisticsExample` | app.py:238-239 | Totals 10, 20, 30 have mean 20 and maximum 30 |
| `Evaluator.DuplicateCodeRankExample` | app.py:191-241 | Rows (a, 20), (a, 40), (b, 30): code a logs in as the 20 row, yet in the valid order 40, 30, 20 its rank is 1, although two rows score above 20 |

## Left out

- Presentation: the CSS, HTML and Markdown strings, the column and container layout, and the `{avg:.1f}` formatting (app.py:14-97, 178-188, 210-270). The badge's display text and colours (app.py:204-207) are also left out; only the tier is modelled.
- The gauge and histogram charts (app.py:99-145) are calls into a charting library.
- Session state: the logged-in flag, the stored student row, rerun and logout (app.py:174-200, 272-274). Only the pure lookup is modelled. After a rerun the sheet is reloaded while the student row stays from login time; the model evaluates one snapshot.
- File reading: `read_csv` and the missing-file branch (app.py:166-172). A cell arrives already classified. It is `Number` when the conversion applied to its column accepts its text: `pd.to_numeric` for the total (app.py:169), `float()` for a component (app.py:148). This holds whether the reader parsed the column as numeric or left it as text. It is `Text` when that conversion rejects the text, and `Blank` when the reader reads it as missing: an empty field, or one of its default missing-value markers (`NA`, `N/A`, `NULL`, `nan` and the like). The number parsing itself is not modelled, nor are the rare forms that one of the two conversions accepts and the other does not.
- Floating point: scores are exact reals, so there is no rounding. NaN appears only in the as-written bar of the finding below.
- `Statistics.ClassStatistics` requires a non-empty roster. On an empty sheet the dashboard's mean and maximum would be NaN, but they are only computed for a logged-in student, who is a row of the sheet (`Evaluator.LoggedInStudentIsInRoster`).
- Repeated evaluation of an unchanged roster always returns the same result, because every member is a pure function of its inputs. No lemma states this.
- bot.py entirely: the messaging-bot client, its JSON and log files, and its admin commands. Its name-to-code dictionary feeds nothing in the dashboard.

## Findings

| source | as written | input that shows it | evidently intended | confidence | as-written member | corrected member |
|---|---|---|---|---|---|---|
| app.py:148-150 | The bar converts the component with `float(value)` and falls back to 0.0 only if that raises. A blank cell (empty, or a marker such as `N/A`) is read as NaN; `float(NaN)` returns NaN without raising; and `min(NaN, 100)` returns NaN. The card then reads "nan / 15", and the style `width: nan%` (app.py:158) is an invalid declaration a browser drops, so the fill most likely takes its automatic, full width. `BlankCellGivesNaNBar` exhibits the NaN; `BarsAgreeExceptBlank` shows it is the only disagreement. | A row whose midterm cell is empty or holds a missing-value marker such as `N/A` | A missing component draws an empty bar (0.0), like a non-numeric one | medium, not executed | `Progress.BarAsWritten` | `Progress.Bars` |
