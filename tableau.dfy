/** The two reshaping helpers applied to a simplex tableau before it is shown:
    `preparar_tabla_para_mostrar` and `ajustar_visual_minimizacion`.
    A tableau is a list of rows of numbers; in the solver's layout the objective
    ("Z") row is the last one, in the displayed layout it is the first. */
module Tableau {

  type Row = seq<real>
  type Table = seq<Row>

  /** `preparar_tabla_para_mostrar`: a copy of the table with its last row (Z) moved to
      the front; an empty table comes back empty. */
  function ZRowFirst(t: Table): (r: Table)
    ensures |r| == |t|
    ensures multiset(r) == multiset(t)
    ensures t != [] ==> r[0] == t[|t| - 1]
    ensures forall k :: 1 <= k < |r| ==> r[k] == t[k - 1]
  {
    if t == [] then t
    else
      var z := t[|t| - 1];
      var rest := t[..|t| - 1];
      assert t == rest + [z];
      [z] + rest
  }

  /** The layout the solver keeps: the first row moved back to the end. */
  function ZRowLast(r: Table): (t: Table)
    ensures |t| == |r|
    ensures r != [] ==> t[|t| - 1] == r[0] && t[..|t| - 1] == r[1..]
  {
    if r == [] then r else r[1..] + [r[0]]
  }

  /** Moving the Z row to the front loses nothing: moving it back restores the table. */
  lemma ZRowFirstRoundTrip(t: Table)
    ensures ZRowLast(ZRowFirst(t)) == t
  {
    if t != [] {
      var r := ZRowFirst(t);
      assert r[1..] == t[..|t| - 1];
      assert ZRowLast(r) == t[..|t| - 1] + [t[|t| - 1]];
      assert t == t[..|t| - 1] + [t[|t| - 1]];
    }
  }

  /** ... and the other way round, so the reordering is a bijection on tables. */
  lemma ZRowLastRoundTrip(r: Table)
    ensures ZRowFirst(ZRowLast(r)) == r
  {
    if r != [] {
      var t := ZRowLast(r);
      assert t[..|t| - 1] == r[1..];
      assert r == [r[0]] + r[1..];
    }
  }

  /** The row with each entry negated. */
  function Negated(row: Row): (n: Row)
    ensures |n| == |row|
    ensures forall i :: 0 <= i < |row| ==> n[i] == -row[i]
  {
    seq(|row|, i requires 0 <= i < |row| => -row[i])
  }

  /** `ajustar_visual_minimizacion`: for a minimisation, a copy whose row 0 is negated;
      otherwise, or for an empty table, the table itself. */
  function AdjustForMinimization(t: Table, isMinimization: bool): (r: Table)
    ensures |r| == |t|
    ensures !isMinimization ==> r == t
    ensures isMinimization && t != [] ==> r[0] == Negated(t[0])
    ensures forall k :: 1 <= k < |t| ==> r[k] == t[k]
  {
    if !isMinimization then t
    else if t == [] then t
    else
      var copy := seq(|t|, k requires 0 <= k < |t| => t[k]);
      copy[0 := Negated(copy[0])]
  }

  lemma NegatedTwice(row: Row)
    ensures Negated(Negated(row)) == row
  {
  }

  /** The adjustment is its own inverse: adjusting twice gives back the table. */
  lemma AdjustTwice(t: Table, isMinimization: bool)
    ensures AdjustForMinimization(AdjustForMinimization(t, isMinimization), isMinimization) == t
  {
    if isMinimization && t != [] {
      var once := AdjustForMinimization(t, true);
      var twice := AdjustForMinimization(once, true);
      NegatedTwice(t[0]);
      assert twice[0] == t[0];
      assert forall k :: 0 <= k < |t| ==> twice[k] == t[k];
    }
  }

  /** The two helpers as a minimisation problem is displayed: the first row shown is
      the negated objective row, and the constraint rows follow unchanged and in order. */
  lemma DisplayedMinimization(t: Table)
    requires t != []
    ensures var d := AdjustForMinimization(ZRowFirst(t), true);
      |d| == |t| && d[0] == Negated(t[|t| - 1]) && d[1..] == t[..|t| - 1]
  {
    var r := ZRowFirst(t);
    var d := AdjustForMinimization(r, true);
    assert d[1..] == r[1..];
    assert r[1..] == t[..|t| - 1];
  }
}
