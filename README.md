# Simplex table display helpers

A model of the display core of the simplex teaching tool, `Methods/table_display.py`.
It covers four pieces:

- `formatear_expresion`. It renders a coefficient vector as a linear expression over
  x1, x2, ..., with one term per nonzero coefficient, "0" for none, and a chain of
  `str.replace` calls that tidies the spacing.
- `preparar_tabla_para_mostrar`. It moves the objective (Z) row of a tableau from the
  solver's layout, where Z is last, to the display layout, where Z is first.
- `ajustar_visual_minimizacion`. For a minimisation problem it negates the displayed Z row.
- The row-label block of `show_simplex_table`. It is meant to name each data row after its
  identity column, or "fila<r+1>" when there is none. As written the identity test never
  holds, so every data row is "fila<r+1>", or "x<r+1>" when the header has fewer than
  three names (see Findings).

Modules:

- `Strings`: Python's decimal rendering of an index, and `str.replace` for the patterns
  the formatter uses. The double-space pattern is replaced left to right without overlaps.
- `Common`: what the formatter and the label block share, which is Python's `abs` and the
  variable name "x<i+1>" of the column at index i.
- `Expression`: the formatter. Its two loops are methods (`GatherTerms`, `JoinTerms`)
  proved against the functions `CollectTerms` and `Joined`, and `FormatExpression` is
  proved against `Format`. The replacement chain is proved equal to a one-character map,
  `Respaced`: every space is dropped and each sign gains one space after it, so the final
  double-space replacement never changes anything. `PrintedFrom` is an independent,
  term-by-term definition of the printed text, and `Format` is proved equal to it.
- `Tableau`: the two reshaping helpers. They are functions on value sequences, each with
  an inverse and a round-trip lemma.
- `Labels`: the label block as two methods that model the code as written. The outer
  loop, `DeriveBasicLabels`, runs over the data rows and is proved equal to `BasicLabels`
  with the as-written slice. The inner loop, `FindIdentityColumn`, runs over the columns,
  stops at the first match as the source's `break` does, and is proved equal to `MatchFrom`
  with the as-written slice. The functions `BasicLabels` and `MatchFrom` take the slice as a
  parameter. The intended slice (see Findings) is modelled only by these functions and the
  lemmas about them, not by the methods.

How a magnitude is rendered (`f"{mag}"`) is a parameter, `render`. Most of the
expression's properties hold for any rendering that prints no space and no sign. For a
float that Python prints in scientific notation, such as 1e-05, the exponent carries a
sign, and `ScientificMagnitudeSplit` shows what the replacement chain does to it.

The docstring of `formatear_expresion` (line 14) promises "3x1 - 2x2 + 5x3". The code
returns "3x1- 2x2+ 5x3": the replacement chain strips the space in front of every sign.
The model follows the code, and `DocstringExample` proves the code's output.

## Model

| member | source | states |
|---|---|---|
| Strings.NatToString | Methods/table_display.py:20 | the decimal text of an index is non-empty and made of digits only, and is the single digit for n < 10 |
| Strings.NatToStringValue | Methods/table_display.py:20 | the digits of the decimal text spell the number itself |
| Strings.NatToStringInjective | Methods/table_display.py:20 | two numbers get the same decimal text only when they are equal |
| Common.VariableNameInjective | Methods/table_display.py:20 | the names "x<i+1>" of two indices are equal exactly when the indices are, so "x1" and "x10" are never confused |
| Expression.GatherTerms | Methods/table_display.py:16-25 | the first loop yields exactly the terms `CollectTerms` defines: one (sign, "<mag> x<i+1>") per nonzero coefficient, in index order |
| Expression.JoinTerms | Methods/table_display.py:28-32 | the second loop yields the first term, prefixed by "- " only when negative, followed by " <sign> <text>" for every later term |
| Expression.FormatExpression | Methods/table_display.py:13-34 | the method returns `Format`: "0" when no term was collected, otherwise the joined terms after the replacement chain |
| Expression.NonzeroIndicesSound | Methods/table_display.py:17-19 | every index the loop keeps is in range and holds a nonzero coefficient |
| Expression.NonzeroIndicesComplete | Methods/table_display.py:17-19 | every nonzero coefficient's index is kept |
| Expression.NonzeroIndicesIncreasing | Methods/table_display.py:17 | the kept indices are strictly increasing, so they follow the coefficients' order and none repeats |
| Expression.TermsFollowNonzeroIndices | Methods/table_display.py:17-25 | there is one term per nonzero coefficient, and the k-th term carries the sign, magnitude and variable name of the k-th nonzero coefficient |
| Expression.CollectTermsEmpty | Methods/table_display.py:16-27 | no term is collected if and only if every coefficient is zero |
| Expression.ReplacementsRespace | Methods/table_display.py:34 | the three single-character replacements together drop every space and put one space after each sign |
| Expression.CollapseRespaced | Methods/table_display.py:34 | after the first three replacements, the double-space replacement leaves the string unchanged |
| Expression.CompactIsRespaced | Methods/table_display.py:34 | the whole replacement chain is the character map "space removed, sign followed by one space" |
| Expression.FormatMatchesPrinted | Methods/table_display.py:13-34 | with plain magnitudes, the result is the term-by-term printed form: "- " before negatives, "+ " before later positives, nothing before a leading positive, then magnitude and name with no space, or "0" |
| Expression.FormatZeroIff | Methods/table_display.py:16-27 | for any rendering, the result is "0" if and only if every coefficient is zero (the empty list included) |
| Expression.LeadingSign | Methods/table_display.py:21-34 | when j is the first nonzero coefficient and its magnitude's text starts with neither a space nor a sign, the result is non-empty, never starts with '+', and starts with '-' exactly when coefficient j is negative, whatever the later magnitudes render as |
| Expression.DocstringExample | Methods/table_display.py:14-34 | for the coefficients 3, -2, 5 the result is "3x1- 2x2+ 5x3" |
| Expression.RespacedExponent | Methods/table_display.py:34 | a magnitude "<d>-<e>" followed by " <name>" becomes "<d>- <e><name>": its digits are kept but the exponent's sign gains a space |
| Expression.ScientificMagnitudeSplit | Methods/table_display.py:22-34 | a single positive coefficient whose magnitude renders as "<d>-<e>" (0.00001 as "1e-05") is printed "<d>- <e>x1", such as "1e- 05x1" |
| Tableau.ZRowFirst | Methods/table_display.py:100-112 | the result has the same rows: the last row first, the others after it in their order, and an empty table stays empty |
| Tableau.ZRowFirstRoundTrip | Methods/table_display.py:109-112 | moving the Z row back to the end restores the original table |
| Tableau.ZRowLastRoundTrip | Methods/table_display.py:109-112 | moving the first row to the end and then back to the front restores the table, so the reordering is a bijection |
| Tableau.NegatedTwice | Methods/table_display.py:125 | negating a row twice gives it back, so the negated Z row loses nothing |
| Tableau.AdjustForMinimization | Methods/table_display.py:114-126 | a maximisation or an empty table is returned as is; for a minimisation, row 0 is negated and every other row is unchanged |
| Tableau.AdjustTwice | Methods/table_display.py:114-126 | adjusting twice gives back the table, so the adjustment is display-only and loses nothing |
| Tableau.DisplayedMinimization | Methods/table_display.py:100-126 | for a minimisation the displayed table starts with the negated Z row, followed by the constraint rows unchanged and in order |
| Labels.DefaultHeaderLabels | Methods/table_display.py:64-91 | with the default header of a table whose first row holds w entries, there is one label per row, the first is "Z", and data row r is labelled "fila<r+1>" as written when w >= 3 and "x<r+1>" otherwise |
| Labels.BasicLabels | Methods/table_display.py:73-91 | there is one label per table row (one for an empty table), and the first is "Z"; a table with no data row needs no column to be readable |
| Labels.FindIdentityColumn | Methods/table_display.py:80-88 | the inner loop, which stops at the first column that passes the identity test, yields that column's name, or "" when no column passes |
| Labels.DeriveBasicLabels | Methods/table_display.py:72-91 | the outer loop appends one label per data row, so the whole block produces exactly `BasicLabels` as written |
| Labels.AsWrittenTestFails | Methods/table_display.py:84-86 | as written, the identity test fails for every column and every data row |
| Labels.AsWrittenLabels | Methods/table_display.py:74-91 | as written, whatever the table holds, data row r is labelled "fila<r+1>" when the header has three or more names, and "x<r+1>" otherwise |
| Labels.CountZerosAllBut | Methods/table_display.py:86 | when entry r is nonzero, counting \|s\|-1 zeros means every other entry is zero |
| Labels.IntendedTestIsUnitColumn | Methods/table_display.py:83-86 | with only the Z row left out, the test holds if and only if the column is 1 (within 1e-9) in row r and 0 in every other data row |
| Labels.DefaultHeaderIntended | Methods/table_display.py:64-89 | with the default header, the intended code labels data row r with "x<j+1>", where j is its first unit column |
| Labels.IntendedLabels | Methods/table_display.py:78-89 | as intended, data row r is named after the first unit column for it ("fila<r+1>" when that name is empty), and "fila<r+1>" when there is no unit column |
| Labels.StartTableAsWritten | Methods/table_display.py:73-89 | the first tableau of "max 3x1 + 5x2" is labelled Z, fila1, fila2, fila3 as written |
| Labels.StartTableUnitColumns | Methods/table_display.py:83-86 | in that tableau, data row r has its unit column at the slack h<r+1>, and no earlier column is a unit column for it |
| Labels.StartTableIntended | Methods/table_display.py:73-89 | the same tableau is labelled Z, h1, h2, h3 as intended |

## Left out

- Printing: the `rich` console and table, the iteration banner, and the row cells. These are I/O.
- `fmt_num`: it only formats cells for printing and plays no part in the labels or the expression.
- The rendering of a magnitude by `f"{mag}"`. It is a parameter, `render`, because Python's float-to-text algorithm is not modelled. Numbers are exact reals, with no floating point, NaN or signed zero.
- The `numpy` conversion at lines 103-104. A tableau is always a sequence of rows here.
- ZRowFirst: the row copies made by `list(f)` are not modelled. Tables are values, so the argument can never be changed and no rows are shared.
- AdjustForMinimization: the row copies at line 123 are likewise implicit in value semantics.
- DeriveBasicLabels: when the header has three or more names and the table has a data row, it requires every row to hold at least \|names\|-2 entries. The source reads all of those entries in that case and raises IndexError when one is missing. A table with no data row reads no entry and is accepted whatever its width.
- BasicLabels: has the same requires as DeriveBasicLabels. With the intended slice, the source would stop reading columns after the first match, so a row too short only beyond that column would not raise there. The model requires the whole header to be readable.
- FindIdentityColumn: requires a data row r and every row to hold \|names\|-2 entries. The outer loop calls it only then; otherwise the source raises IndexError.
- DeriveBasicLabels: takes the header as given. The choice of the default header at line 64, when no header or an empty one is passed, is modelled separately as `DefaultHeader`, and `DefaultHeaderLabels` and `DefaultHeaderIntended` say what it does to the labels.
- DefaultHeaderLabels: requires a non-empty table, because the source raises IndexError on the first row of an empty one when no header is given. It also requires the other rows to be as wide as the header needs, as DeriveBasicLabels does.
- The rest of the repository is not part of this model: the walkthrough scripts, the graphic method and the menu.

## Findings

| source | as written | input that shows it | evidently intended | confidence | as-written member | corrected member |
|---|---|---|---|---|---|---|
| Methods/table_display.py:84 | `col_vec[1:-1]` drops the Z entry and also the last data row's entry. The body then has one entry fewer than the number of data rows, so the length test at line 86 never holds and every data row is labelled "fila<r+1>" | the first tableau of "max 3x1 + 5x2, x1 <= 4, 2x2 <= 12, 3x1 + 2x2 <= 18" with header VB, x1, x2, h1, h2, h3, LD is labelled Z, fila1, fila2, fila3 | drop only the Z entry (`col_vec[1:]`), as the comment on line 83 says, so rows are named after their unit columns: Z, h1, h2, h3 | high; not executed | Labels.AsWrittenLabels | Labels.IntendedLabels |
