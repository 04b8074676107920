/** The row labels of `show_simplex_table`: the label of the objective row is "Z", and
    each data row is named after a column that is an identity column for it, or
    "fila<r+1>" when none is found. The table is in display layout (Z row first). */
module Labels {
  import opened Strings
  import opened Common
  import opened Tableau

  /** The 1e-9 tolerance used when an entry is compared with 1. */
  const Tolerance: real := 1.0 / 1000000000.0

  /** Every row holds at least `width` entries, so every column below `width` can be read. */
  predicate Covers(t: Table, width: int) {
    forall i :: 0 <= i < |t| ==> width <= |t[i]|
  }

  /** The header used when none is given: "Z", x1 .. x<width-2>, "LD". */
  function DefaultHeader(width: nat): (h: seq<string>)
    ensures |h| == if width < 2 then 2 else width
    ensures h[0] == "Z" && h[|h| - 1] == "LD"
    ensures forall i :: 1 <= i < |h| - 1 ==> h[i] == VariableName(i - 1)
  {
    ["Z"] + seq(if width < 2 then 0 else width - 2, i requires 0 <= i => VariableName(i)) + ["LD"]
  }

  /** Column j of the table, one entry per row, top to bottom. */
  function Column(t: Table, j: nat): (c: seq<real>)
    requires Covers(t, j + 1)
    ensures |c| == |t| && forall i :: 0 <= i < |t| ==> c[i] == t[i][j]
  {
    seq(|t|, i requires 0 <= i < |t| && j < |t[i]| => t[i][j])
  }

  /** How many entries of s are exactly zero. */
  function CountZeros(s: seq<real>): (n: nat)
    ensures n <= |s|
  {
    if |s| == 0 then 0 else (if s[0] == 0.0 then 1 else 0) + CountZeros(s[1..])
  }

  /** How the part of a column below the Z row is cut out: as written, the last entry
      is dropped as well; as intended, only the Z row's entry is. */
  datatype Slice = AsWritten | ZRowOnly

  function Body(col: seq<real>, slice: Slice): (b: seq<real>)
    ensures |col| > 1 && slice == AsWritten ==> |b| == |col| - 2
    ensures |col| > 1 && slice == ZRowOnly ==> b == col[1..]
  {
    if |col| <= 1 then []
    else if slice == AsWritten then col[1..|col| - 1]
    else col[1..]
  }

  /** Entry r of s lies within the tolerance of 1; only read where entry r exists, since the
      identity test reaches it only then. */
  predicate NearOne(s: seq<real>, r: nat) {
    r < |s| && Abs(s[r] - 1.0) < Tolerance
  }

  /** The identity test for column j and data row r: the body has one entry per data row,
      all but one of them zero, and the one at r within the tolerance of 1. */
  predicate IdentityTest(t: Table, j: nat, r: nat, slice: Slice)
    requires Covers(t, j + 1) && r < |t| - 1
  {
    var numRows := |t| - 1;
    var body := Body(Column(t, j), slice);
    |body| == numRows && CountZeros(body) == numRows - 1 && NearOne(body, r)
  }

  /** The name the inner loop settles on for data row r, trying columns j, j+1, ...:
      the name of the first column that passes the test, "" if none does. */
  function MatchFrom(t: Table, names: seq<string>, r: nat, j: nat, slice: Slice): string
    requires |names| >= 3 && Covers(t, |names| - 2) && r < |t| - 1 && j <= |names| - 2
    decreases |names| - 2 - j
  {
    if j == |names| - 2 then ""
    else if IdentityTest(t, j, r, slice) then names[1 + j]
    else MatchFrom(t, names, r, j + 1, slice)
  }

  /** The fallback label of data row r: "fila" followed by r + 1. */
  function RowName(r: nat): string {
    "fila" + NatToString(r + 1)
  }

  function RowLabel(t: Table, names: seq<string>, r: nat, slice: Slice): string
    requires |names| >= 3 && Covers(t, |names| - 2) && r < |t| - 1
  {
    var found := MatchFrom(t, names, r, 0, slice);
    if found != "" then found else RowName(r)
  }

  /** The basic-variable labels as `show_simplex_table` derives them, for the header `names`. */
  function BasicLabels(t: Table, names: seq<string>, slice: Slice): (labels: seq<string>)
    requires |names| >= 3 && |t| >= 2 ==> Covers(t, |names| - 2)
    ensures |labels| == if t == [] then 1 else |t|
    ensures labels[0] == "Z"
  {
    var dataRows := if t == [] then 0 else |t| - 1;
    if |names| >= 3 then
      ["Z"] + seq(dataRows, r requires 0 <= r < dataRows => RowLabel(t, names, r, slice))
    else
      ["Z"] + seq(dataRows, i requires 0 <= i => VariableName(i))
  }

  /** The inner loop of the label block as written: the name of the first column that
      passes the identity test for data row r, or "" when none does. */
  method FindIdentityColumn(t: Table, names: seq<string>, r: nat) returns (vbName: string)
    requires |names| >= 3 && Covers(t, |names| - 2) && r < |t| - 1
    ensures vbName == MatchFrom(t, names, r, 0, AsWritten)
  {
    var varNames := names[1..|names| - 1];
    var numRows := |t| - 1;
    var numCols := |varNames|;
    vbName := "";
    var j := 0;
    while j < numCols
      invariant 0 <= j <= numCols
      invariant vbName == ""
      invariant MatchFrom(t, names, r, j, AsWritten) == MatchFrom(t, names, r, 0, AsWritten)
    {
      var colVec := seq(|t|, i requires 0 <= i < |t| && j < |t[i]| => t[i][j]);
      var colBody := if |colVec| > 1 then colVec[1..|colVec| - 1] else [];
      assert colVec == Column(t, j) && colBody == Body(Column(t, j), AsWritten);
      var name := varNames[j];
      if |colBody| == numRows && CountZeros(colBody) == numRows - 1 && NearOne(colBody, r) {
        vbName := name;
        return;
      }
      j := j + 1;
    }
  }

  /** The label block of `show_simplex_table` as written, with its nested loops and `break`. */
  method DeriveBasicLabels(t: Table, names: seq<string>) returns (labels: seq<string>)
    requires |names| >= 3 && |t| >= 2 ==> Covers(t, |names| - 2)
    ensures labels == BasicLabels(t, names, AsWritten)
  {
    labels := ["Z"];
    if |names| >= 3 {
      var numRows := |t| - 1;
      if numRows > 0 {
        // `range(num_rows)` is empty otherwise, and no row is read
        var r: nat := 0;
        while r < numRows
          invariant 0 <= r <= numRows
          invariant |labels| == r + 1 && labels[0] == "Z"
          invariant forall k :: 0 <= k < r ==> labels[k + 1] == RowLabel(t, names, k, AsWritten)
        {
          var vbName := FindIdentityColumn(t, names, r);
          labels := labels + [if vbName != "" then vbName else RowName(r)];
          r := r + 1;
        }
      }
    } else {
      labels := ["Z"] + seq(if |t| == 0 then 0 else |t| - 1, i requires 0 <= i => VariableName(i));
    }
  }

  // ---------------------------------------------------------------------------
  // The code as written

  /** As written, the body has two entries fewer than the table has rows, one fewer than
      the test wants, so no column ever passes. */
  lemma AsWrittenTestFails(t: Table, j: nat, r: nat)
    requires Covers(t, j + 1) && r < |t| - 1
    ensures !IdentityTest(t, j, r, AsWritten)
  {
  }

  lemma {:induction false} AsWrittenMatchEmpty(t: Table, names: seq<string>, r: nat, j: nat)
    requires |names| >= 3 && Covers(t, |names| - 2) && r < |t| - 1 && j <= |names| - 2
    ensures MatchFrom(t, names, r, j, AsWritten) == ""
    decreases |names| - 2 - j
  {
    if j < |names| - 2 {
      AsWrittenTestFails(t, j, r);
      AsWrittenMatchEmpty(t, names, r, j + 1);
    }
  }

  /** Whatever the table holds, the code as written labels data row r "fila<r+1>" when a
      header of three or more names is given, and "x<r+1>" otherwise. */
  lemma AsWrittenLabels(t: Table, names: seq<string>)
    requires |names| >= 3 && |t| >= 2 ==> Covers(t, |names| - 2)
    ensures forall r :: 0 <= r < |t| - 1 ==>
      BasicLabels(t, names, AsWritten)[r + 1] == if |names| >= 3 then RowName(r) else VariableName(r)
  {
    var labels := BasicLabels(t, names, AsWritten);
    forall r | 0 <= r < |t| - 1
      ensures labels[r + 1] == if |names| >= 3 then RowName(r) else VariableName(r)
    {
      if |names| >= 3 {
        assert labels[r + 1] == RowLabel(t, names, r, AsWritten);
        AsWrittenMatchEmpty(t, names, r, 0);
      } else {
        assert labels[r + 1] == VariableName(r);
      }
    }
  }

  /** With the default header of a table whose first row holds w entries, the code as
      written labels data row r "fila<r+1>" when w >= 3 and "x<r+1>" otherwise. */
  lemma DefaultHeaderLabels(t: Table)
    requires |t| > 0 && (|t| >= 2 && |t[0]| >= 3 ==> Covers(t, |t[0]| - 2))
    ensures var labels := BasicLabels(t, DefaultHeader(|t[0]|), AsWritten);
      |labels| == |t| && labels[0] == "Z" &&
      forall r :: 0 <= r < |t| - 1 ==> labels[r + 1] == if |t[0]| >= 3 then RowName(r) else VariableName(r)
  {
    AsWrittenLabels(t, DefaultHeader(|t[0]|));
  }

  // ---------------------------------------------------------------------------
  // The code as intended: only the Z row is left out of the column

  /** Column j is a unit column for data row r: 1 (within the tolerance) in that row and
      0 in every other row below the Z row. */
  predicate UnitColumn(t: Table, j: nat, r: nat)
    requires Covers(t, j + 1) && r < |t| - 1
  {
    Abs(t[r + 1][j] - 1.0) < Tolerance && forall k :: 1 <= k < |t| && k != r + 1 ==> t[k][j] == 0.0
  }

  lemma {:induction false} CountZerosAll(s: seq<real>)
    ensures CountZeros(s) == |s| <==> forall k :: 0 <= k < |s| ==> s[k] == 0.0
  {
    if s != [] {
      CountZerosAll(s[1..]);
      if s[0] == 0.0 {
        assert forall k :: 1 <= k < |s| ==> s[k] == s[1..][k - 1];
      }
    }
  }

  /** With s[r] nonzero, counting |s| - 1 zeros means every other entry is zero. */
  lemma {:induction false} CountZerosAllBut(s: seq<real>, r: nat)
    requires r < |s| && s[r] != 0.0
    ensures CountZeros(s) == |s| - 1 <==> forall k :: 0 <= k < |s| && k != r ==> s[k] == 0.0
  {
    if r == 0 {
      CountZerosAll(s[1..]);
      assert forall k :: 1 <= k < |s| ==> s[k] == s[1..][k - 1];
    } else {
      CountZerosAllBut(s[1..], r - 1);
      CountZerosAll(s[1..]);
      assert s[1..][r - 1] == s[r];
      assert forall k :: 1 <= k < |s| ==> s[k] == s[1..][k - 1];
    }
  }

  /** The intended test is exactly the unit-column condition. */
  lemma IntendedTestIsUnitColumn(t: Table, j: nat, r: nat)
    requires Covers(t, j + 1) && r < |t| - 1
    ensures IdentityTest(t, j, r, ZRowOnly) <==> UnitColumn(t, j, r)
  {
    var body := Body(Column(t, j), ZRowOnly);
    assert |body| == |t| - 1;
    assert forall k :: 0 <= k < |body| ==> body[k] == t[k + 1][j];
    if Abs(body[r] - 1.0) < Tolerance {
      CountZerosAllBut(body, r);
      if UnitColumn(t, j, r) {
        assert forall k :: 0 <= k < |body| && k != r ==> body[k] == t[k + 1][j] == 0.0;
      }
      if CountZeros(body) == |body| - 1 {
        forall k | 1 <= k < |t| && k != r + 1
          ensures t[k][j] == 0.0
        {
          assert body[k - 1] == t[k][j];
        }
      }
    }
  }

  lemma {:induction false} IntendedMatchAt(t: Table, names: seq<string>, r: nat, j0: nat, j: nat)
    requires |names| >= 3 && Covers(t, |names| - 2) && r < |t| - 1
    requires j0 <= j < |names| - 2 && UnitColumn(t, j, r)
    requires forall i :: j0 <= i < j ==> !UnitColumn(t, i, r)
    ensures MatchFrom(t, names, r, j0, ZRowOnly) == names[1 + j]
    decreases j - j0
  {
    IntendedTestIsUnitColumn(t, j0, r);
    if j0 < j {
      IntendedMatchAt(t, names, r, j0 + 1, j);
    }
  }

  lemma {:induction false} IntendedMatchNone(t: Table, names: seq<string>, r: nat, j0: nat)
    requires |names| >= 3 && Covers(t, |names| - 2) && r < |t| - 1 && j0 <= |names| - 2
    requires forall j :: j0 <= j < |names| - 2 ==> !UnitColumn(t, j, r)
    ensures MatchFrom(t, names, r, j0, ZRowOnly) == ""
    decreases |names| - 2 - j0
  {
    if j0 < |names| - 2 {
      IntendedTestIsUnitColumn(t, j0, r);
      IntendedMatchNone(t, names, r, j0 + 1);
    }
  }

  lemma IntendedLabelAt(t: Table, names: seq<string>, r: nat, j: nat)
    requires |names| >= 3 && Covers(t, |names| - 2) && r < |t| - 1
    requires j < |names| - 2 && UnitColumn(t, j, r)
    requires forall i :: 0 <= i < j ==> !UnitColumn(t, i, r)
    ensures BasicLabels(t, names, ZRowOnly)[r + 1] == if names[1 + j] != "" then names[1 + j] else RowName(r)
  {
    IntendedMatchAt(t, names, r, 0, j);
  }

  /** With the default header, the intended code names data row r after the variable
      x<j+1> of its first unit column j. */
  lemma DefaultHeaderIntended(t: Table, r: nat, j: nat)
    requires |t| >= 2 && |t[0]| >= 3 && Covers(t, |t[0]| - 2) && r < |t| - 1
    requires j < |t[0]| - 2 && UnitColumn(t, j, r)
    requires forall i :: 0 <= i < j ==> !UnitColumn(t, i, r)
    ensures BasicLabels(t, DefaultHeader(|t[0]|), ZRowOnly)[r + 1] == VariableName(j)
  {
    var names := DefaultHeader(|t[0]|);
    IntendedLabelAt(t, names, r, j);
    assert names[1 + j] == VariableName(j) != "";
  }

  /** As intended, data row r is named after the first unit column for it (or
      "fila<r+1>" when that column's name is empty), and "fila<r+1>" when no column is one. */
  lemma IntendedLabels(t: Table, names: seq<string>, r: nat)
    requires |names| >= 3 && Covers(t, |names| - 2) && r < |t| - 1
    ensures forall j :: (0 <= j < |names| - 2 && UnitColumn(t, j, r) &&
      (forall i :: 0 <= i < j ==> !UnitColumn(t, i, r))) ==>
        BasicLabels(t, names, ZRowOnly)[r + 1] == if names[1 + j] != "" then names[1 + j] else RowName(r)
    ensures (forall j :: 0 <= j < |names| - 2 ==> !UnitColumn(t, j, r)) ==>
      BasicLabels(t, names, ZRowOnly)[r + 1] == RowName(r)
  {
    forall j | 0 <= j < |names| - 2 && UnitColumn(t, j, r) && (forall i :: 0 <= i < j ==> !UnitColumn(t, i, r))
      ensures BasicLabels(t, names, ZRowOnly)[r + 1] == if names[1 + j] != "" then names[1 + j] else RowName(r)
    {
      IntendedLabelAt(t, names, r, j);
    }
    if forall j :: 0 <= j < |names| - 2 ==> !UnitColumn(t, j, r) {
      IntendedMatchNone(t, names, r, 0);
    }
  }

  // ---------------------------------------------------------------------------
  // The first tableau of the textbook problem "maximise 3x1 + 5x2 subject to x1 <= 4,
  // 2x2 <= 12, 3x1 + 2x2 <= 18", in display layout, with the slacks h1, h2, h3 basic

  const StartTable: Table := [
    [-3.0, -5.0, 0.0, 0.0, 0.0, 0.0],
    [1.0, 0.0, 1.0, 0.0, 0.0, 4.0],
    [0.0, 2.0, 0.0, 1.0, 0.0, 12.0],
    [3.0, 2.0, 0.0, 0.0, 1.0, 18.0]]

  const StartHeader: seq<string> := ["VB", "x1", "x2", "h1", "h2", "h3", "LD"]

  /** As written, the slack rows are shown as fila1, fila2, fila3. */
  lemma StartTableAsWritten()
    ensures BasicLabels(StartTable, StartHeader, AsWritten) == ["Z", "fila1", "fila2", "fila3"]
  {
    AsWrittenLabels(StartTable, StartHeader);
    assert DigitChar(1) == '1' && DigitChar(2) == '2' && DigitChar(3) == '3';
    assert RowName(0) == "fila1" && RowName(1) == "fila2" && RowName(2) == "fila3";
  }

  /** In the first tableau, data row r has its unit column at r + 2 (the slack h<r+1>),
      and no column before that one is a unit column for it. */
  lemma StartTableUnitColumns(r: nat)
    requires r < 3
    ensures Covers(StartTable, |StartHeader| - 2)
    ensures UnitColumn(StartTable, r + 2, r)
    ensures forall i :: 0 <= i < r + 2 ==> !UnitColumn(StartTable, i, r)
  {
    var t := StartTable;
    assert t[3][0] != 0.0 && t[2][1] != 0.0 && t[3][1] != 0.0;
    if r > 0 {
      assert t[1][2] != 0.0;
    }
    if r > 1 {
      assert t[2][3] != 0.0;
    }
  }

  lemma StartRowIntended(r: nat)
    requires r < 3
    ensures BasicLabels(StartTable, StartHeader, ZRowOnly)[r + 1] == StartHeader[r + 3]
  {
    StartTableUnitColumns(r);
    IntendedLabelAt(StartTable, StartHeader, r, r + 2);
  }

  /** As intended, they are shown as h1, h2, h3, the slacks that are basic in them. */
  lemma StartTableIntended()
    ensures BasicLabels(StartTable, StartHeader, ZRowOnly) == ["Z", "h1", "h2", "h3"]
  {
    var labels := BasicLabels(StartTable, StartHeader, ZRowOnly);
    assert |labels| == 4 && labels[0] == "Z";
    StartRowIntended(0);
    StartRowIntended(1);
    StartRowIntended(2);
    assert labels[1] == "h1" && labels[2] == "h2" && labels[3] == "h3";
  }
}
