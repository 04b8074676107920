/** What the formatter and the label block share: Python's `abs` on a number, and the
    variable name "x<i+1>" both of them give to the column at index i. */
module Common {
  import opened Strings

  function Abs(a: real): (m: real)
    ensures m >= 0.0 && (m == a || m == -a)
    ensures a != 0.0 ==> m > 0.0
  {
    if a < 0.0 then -a else a
  }

  /** The name of the variable at index i: "x" followed by i + 1. */
  function VariableName(i: nat): string {
    "x" + NatToString(i + 1)
  }

  /** Different indices get different names, so "x1" and "x10" are never confused. */
  lemma VariableNameInjective(i: nat, k: nat)
    ensures VariableName(i) == VariableName(k) <==> i == k
  {
    if VariableName(i) == VariableName(k) {
      assert VariableName(i)[1..] == NatToString(i + 1);
      assert VariableName(k)[1..] == NatToString(k + 1);
      NatToStringInjective(i + 1, k + 1);
    }
  }
}
