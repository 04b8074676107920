/** `formatear_expresion`: renders a coefficient vector as a linear expression
    over x1, x2, ... such as "3x1- 2x2+ 5x3". */
module Expression {
  import opened Strings
  import opened Common

  /** How Python renders a positive magnitude with `f"{mag}"`. The model does not
      fix it: every member that renders a number takes it as a parameter. */
  type Render = real -> string

  /** A piece of text with no space and no sign character. */
  predicate PlainText(s: string) {
    ' ' !in s && '-' !in s && '+' !in s
  }

  /** The magnitudes of `coefs` that get rendered all render as plain text
      (true of Python ints and of floats printed positionally, but not of a
      float Python prints in scientific notation, such as 1e-05). */
  predicate CleanOn(coefs: seq<real>, render: Render) {
    forall k :: 0 <= k < |coefs| && coefs[k] != 0.0 ==> PlainText(render(Abs(coefs[k])))
  }

  /** One entry of `terminos`: the sign character and the text "<mag> x<i+1>". */
  datatype Term = Term(sign: char, text: string)

  /** The term that a nonzero coefficient `a` at index `i` contributes. */
  function TermOf(i: nat, a: real, render: Render): Term {
    Term(if a < 0.0 then '-' else '+', render(Abs(a)) + " " + VariableName(i))
  }

  /** The terms collected by the first loop from index `i` on: one per nonzero coefficient. */
  function CollectTerms(coefs: seq<real>, i: nat, render: Render): seq<Term>
    requires i <= |coefs|
    decreases |coefs| - i
  {
    if i == |coefs| then []
    else (if coefs[i] == 0.0 then [] else [TermOf(i, coefs[i], render)]) + CollectTerms(coefs, i + 1, render)
  }

  /** What the second loop appends for one term after the first: " <sign> <text>". */
  function Separated(t: Term): string {
    " " + [t.sign] + " " + t.text
  }

  function JoinRest(ts: seq<Term>): string {
    if |ts| == 0 then "" else Separated(ts[0]) + JoinRest(ts[1..])
  }

  /** The string before compaction: the first term carries "- " only when negative. */
  function Joined(ts: seq<Term>): string
    requires ts != []
  {
    (if ts[0].sign == '-' then "- " else "") + ts[0].text + JoinRest(ts[1..])
  }

  /** The chain of replacements applied to the joined string before it is returned. */
  function Compact(s: string): string {
    CollapseDoubleSpaces(ReplaceChar(ReplaceChar(ReplaceChar(s, ' ', ""), '-', "- "), '+', "+ "))
  }

  /** The value `formatear_expresion(coefs)` returns. */
  function Format(coefs: seq<real>, render: Render): string {
    var ts := CollectTerms(coefs, 0, render);
    if ts == [] then "0" else Compact(Joined(ts))
  }

  /** The first loop of the formatter: one term per nonzero coefficient, in index order. */
  method GatherTerms(coefs: seq<real>, render: Render) returns (terms: seq<Term>)
    ensures terms == CollectTerms(coefs, 0, render)
  {
    terms := [];
    var i := 0;
    while i < |coefs|
      invariant 0 <= i <= |coefs|
      invariant terms + CollectTerms(coefs, i, render) == CollectTerms(coefs, 0, render)
    {
      var a := coefs[i];
      ghost var rest := CollectTerms(coefs, i + 1, render);
      if a != 0.0 {
        var name := "x" + NatToString(i + 1);
        var sign := if a < 0.0 then '-' else '+';
        var mag := Abs(a);
        var text := render(mag) + " " + name;
        assert Term(sign, text) == TermOf(i, a, render);
        assert CollectTerms(coefs, i, render) == [Term(sign, text)] + rest;
        assert (terms + [Term(sign, text)]) + rest == terms + ([Term(sign, text)] + rest);
        terms := terms + [Term(sign, text)];
      } else {
        assert CollectTerms(coefs, i, render) == rest;
      }
      i := i + 1;
    }
  }

  /** The second loop of the formatter: the first term, then " <sign> <text>" for each other one. */
  method JoinTerms(terms: seq<Term>) returns (s: string)
    requires terms != []
    ensures s == Joined(terms)
  {
    var first := terms[0];
    s := (if first.sign == '-' then "- " else "") + first.text;
    var k := 1;
    while k < |terms|
      invariant 1 <= k <= |terms|
      invariant s + JoinRest(terms[k..]) == Joined(terms)
    {
      var piece := " " + [terms[k].sign] + " " + terms[k].text;
      assert piece == Separated(terms[k]);
      assert JoinRest(terms[k..]) == piece + JoinRest(terms[k + 1..]) by {
        assert terms[k..][0] == terms[k] && terms[k..][1..] == terms[k + 1..];
      }
      s := s + piece;
      k := k + 1;
    }
    assert terms[k..] == [];
  }

  /** `formatear_expresion`: gather the terms, "0" when there are none, otherwise
      join them and compact the spacing. */
  method FormatExpression(coefs: seq<real>, render: Render) returns (s: string)
    ensures s == Format(coefs, render)
  {
    var terms := GatherTerms(coefs, render);
    if terms == [] {
      return "0";
    }
    s := JoinTerms(terms);
    s := Compact(s);
  }

  // ---------------------------------------------------------------------------
  // Which coefficients produce a term

  /** The indices, from `i` on, of the nonzero coefficients, in increasing order. */
  function NonzeroIndices(coefs: seq<real>, i: nat): seq<nat>
    requires i <= |coefs|
    decreases |coefs| - i
  {
    if i == |coefs| then []
    else (if coefs[i] != 0.0 then [i] else []) + NonzeroIndices(coefs, i + 1)
  }

  /** Every index listed is one of a nonzero coefficient from `i` on. */
  lemma {:induction false} NonzeroIndicesSound(coefs: seq<real>, i: nat)
    requires i <= |coefs|
    ensures forall k :: 0 <= k < |NonzeroIndices(coefs, i)| ==>
      i <= NonzeroIndices(coefs, i)[k] < |coefs| && coefs[NonzeroIndices(coefs, i)[k]] != 0.0
    decreases |coefs| - i
  {
    if i < |coefs| {
      NonzeroIndicesSound(coefs, i + 1);
      var p, q := NonzeroIndices(coefs, i + 1), NonzeroIndices(coefs, i);
      if coefs[i] != 0.0 {
        assert q == [i] + p;
        forall k | 0 <= k < |q|
          ensures i <= q[k] < |coefs| && coefs[q[k]] != 0.0
        {
          if k > 0 {
            assert q[k] == p[k - 1];
          }
        }
      } else {
        assert q == p;
      }
    }
  }

  /** Every nonzero coefficient from `i` on is listed. */
  lemma {:induction false} NonzeroIndicesComplete(coefs: seq<real>, i: nat)
    requires i <= |coefs|
    ensures forall j :: i <= j < |coefs| && coefs[j] != 0.0 ==> j in NonzeroIndices(coefs, i)
    decreases |coefs| - i
  {
    if i < |coefs| {
      NonzeroIndicesComplete(coefs, i + 1);
      var p, q := NonzeroIndices(coefs, i + 1), NonzeroIndices(coefs, i);
      forall j | i <= j < |coefs| && coefs[j] != 0.0
        ensures j in q
      {
        if coefs[i] != 0.0 {
          assert q == [i] + p;
          if j == i {
            assert q[0] == j;
          } else {
            assert j in p;
          }
        } else {
          assert q == p;
        }
      }
    }
  }

  predicate Increasing(p: seq<nat>) {
    forall a, b :: 0 <= a < b < |p| ==> p[a] < p[b]
  }

  lemma IncreasingCons(x: nat, p: seq<nat>)
    requires forall k :: 0 <= k < |p| ==> x < p[k]
    requires Increasing(p)
    ensures Increasing([x] + p)
  {
    var q := [x] + p;
    forall a, b | 0 <= a < b < |q|
      ensures q[a] < q[b]
    {
      assert q[b] == p[b - 1];
      if a > 0 {
        assert q[a] == p[a - 1];
      }
    }
  }

  /** The indices are listed in increasing order, so each at most once. */
  lemma {:induction false} NonzeroIndicesIncreasing(coefs: seq<real>, i: nat)
    requires i <= |coefs|
    ensures Increasing(NonzeroIndices(coefs, i))
    decreases |coefs| - i
  {
    if i < |coefs| {
      NonzeroIndicesIncreasing(coefs, i + 1);
      var p := NonzeroIndices(coefs, i + 1);
      if coefs[i] != 0.0 {
        NonzeroIndicesSound(coefs, i + 1);
        IncreasingCons(i, p);
        assert NonzeroIndices(coefs, i) == [i] + p;
      } else {
        assert NonzeroIndices(coefs, i) == p;
      }
    }
  }

  /** The terms `ts` are, one for one, the terms of the coefficients at the indices `p`. */
  predicate TermsAt(ts: seq<Term>, p: seq<nat>, coefs: seq<real>, render: Render) {
    |ts| == |p| &&
    forall k :: 0 <= k < |p| ==> p[k] < |coefs| && ts[k] == TermOf(p[k], coefs[p[k]], render)
  }

  lemma TermsAtCons(i: nat, ts: seq<Term>, p: seq<nat>, coefs: seq<real>, render: Render)
    requires i < |coefs| && TermsAt(ts, p, coefs, render)
    ensures TermsAt([TermOf(i, coefs[i], render)] + ts, [i] + p, coefs, render)
  {
    var ts', p' := [TermOf(i, coefs[i], render)] + ts, [i] + p;
    forall k | 0 <= k < |p'|
      ensures p'[k] < |coefs| && ts'[k] == TermOf(p'[k], coefs[p'[k]], render)
    {
      if k > 0 {
        assert ts'[k] == ts[k - 1] && p'[k] == p[k - 1];
      }
    }
  }

  /** Each nonzero coefficient contributes exactly one term, in index order, and
      that term carries the coefficient's sign and its variable's name. */
  lemma {:induction false} TermsFollowNonzeroIndices(coefs: seq<real>, i: nat, render: Render)
    requires i <= |coefs|
    ensures TermsAt(CollectTerms(coefs, i, render), NonzeroIndices(coefs, i), coefs, render)
    decreases |coefs| - i
  {
    if i < |coefs| {
      TermsFollowNonzeroIndices(coefs, i + 1, render);
      var rest, p := CollectTerms(coefs, i + 1, render), NonzeroIndices(coefs, i + 1);
      if coefs[i] != 0.0 {
        TermsAtCons(i, rest, p, coefs, render);
        assert CollectTerms(coefs, i, render) == [TermOf(i, coefs[i], render)] + rest;
        assert NonzeroIndices(coefs, i) == [i] + p;
      } else {
        assert CollectTerms(coefs, i, render) == rest;
        assert NonzeroIndices(coefs, i) == p;
      }
    }
  }

  lemma {:induction false} CollectTermsEmpty(coefs: seq<real>, i: nat, render: Render)
    requires i <= |coefs|
    ensures CollectTerms(coefs, i, render) == [] <==> forall k :: i <= k < |coefs| ==> coefs[k] == 0.0
    decreases |coefs| - i
  {
    if i < |coefs| {
      CollectTermsEmpty(coefs, i + 1, render);
    }
  }

  // ---------------------------------------------------------------------------
  // What the replacement chain does

  /** The replacement chain as one character map: a space disappears, a sign gains one space after it. */
  function SignSpaced(c: char): string {
    if c == ' ' then "" else if c == '-' then "- " else if c == '+' then "+ " else [c]
  }

  function Respaced(s: string): string {
    if |s| == 0 then [] else SignSpaced(s[0]) + Respaced(s[1..])
  }

  lemma {:induction false} RespacedConcat(a: string, b: string)
    ensures Respaced(a + b) == Respaced(a) + Respaced(b)
  {
    if a == [] {
      assert a + b == b;
    } else {
      assert (a + b)[0] == a[0];
      assert (a + b)[1..] == a[1..] + b;
      RespacedConcat(a[1..], b);
    }
  }

  lemma {:induction false} RespacedPlain(s: string)
    requires PlainText(s)
    ensures Respaced(s) == s
  {
    if s != [] {
      assert s == [s[0]] + s[1..];
      RespacedPlain(s[1..]);
    }
  }

  /** A plain prefix is left as it is. */
  lemma RespacedPlainPrefix(d: string, x: string)
    requires PlainText(d)
    ensures Respaced(d + x) == d + Respaced(x)
  {
    RespacedConcat(d, x);
    RespacedPlain(d);
  }

  /** Every character other than a space survives the replacement chain. */
  lemma {:induction false} RespacedKeeps(s: string, c: char)
    requires c != ' ' && c in s
    ensures c in Respaced(s)
  {
    if s[0] == c {
      assert SignSpaced(c)[0] == c;
    } else {
      RespacedKeeps(s[1..], c);
    }
  }

  lemma {:induction false} RespacedNoLeadingSpace(s: string)
    ensures Respaced(s) == [] || Respaced(s)[0] != ' '
  {
    if s != [] && s[0] == ' ' {
      RespacedNoLeadingSpace(s[1..]);
    }
  }

  /** The three single-character replacements together are the character map. */
  lemma {:induction false} ReplacementsRespace(s: string)
    ensures ReplaceChar(ReplaceChar(ReplaceChar(s, ' ', ""), '-', "- "), '+', "+ ") == Respaced(s)
  {
    if s != [] {
      var c, t := s[0], s[1..];
      var head := if c == ' ' then "" else [c];
      assert ReplaceChar(s, ' ', "") == head + ReplaceChar(t, ' ', "");
      ReplaceCharConcat(head, ReplaceChar(t, ' ', ""), '-', "- ");
      var head2 := ReplaceChar(head, '-', "- ");
      ReplaceCharConcat(head2, ReplaceChar(ReplaceChar(t, ' ', ""), '-', "- "), '+', "+ ");
      if c == ' ' {
        assert head2 == "";
      } else if c == '-' {
        assert head2 == "- ";
        assert ReplaceChar(head2, '+', "+ ") == "- " by {
          assert head2[1..] == " ";
          assert ReplaceChar(" ", '+', "+ ") == " " + ReplaceChar("", '+', "+ ");
        }
      } else if c == '+' {
        assert head2 == "+";
        assert ReplaceChar(head2, '+', "+ ") == "+ " + ReplaceChar("", '+', "+ ");
      } else {
        assert head2 == [c];
        assert ReplaceChar(head2, '+', "+ ") == [c] + ReplaceChar("", '+', "+ ");
      }
      ReplacementsRespace(t);
    }
  }

  lemma CollapseCons(c: char, x: string)
    requires c != ' '
    ensures CollapseDoubleSpaces([c] + x) == [c] + CollapseDoubleSpaces(x)
  {
    if |x| > 0 {
      assert ([c] + x)[0] == c && ([c] + x)[1..] == x;
    }
  }

  lemma CollapseSpaceCons(x: string)
    requires |x| == 0 || x[0] != ' '
    ensures CollapseDoubleSpaces([' '] + x) == [' '] + CollapseDoubleSpaces(x)
  {
    if |x| > 0 {
      assert ([' '] + x)[1] == x[0] && ([' '] + x)[1..] == x;
    }
  }

  /** After the first three replacements no two spaces are adjacent, so the last
      replacement changes nothing. */
  lemma {:induction false} CollapseRespaced(s: string)
    ensures CollapseDoubleSpaces(Respaced(s)) == Respaced(s)
  {
    if |s| > 0 {
      var c, rest := s[0], Respaced(s[1..]);
      CollapseRespaced(s[1..]);
      RespacedNoLeadingSpace(s[1..]);
      if c == '-' || c == '+' {
        assert Respaced(s) == [c] + ([' '] + rest);
        CollapseSpaceCons(rest);
        CollapseCons(c, [' '] + rest);
      } else if c != ' ' {
        assert Respaced(s) == [c] + rest;
        CollapseCons(c, rest);
      } else {
        assert Respaced(s) == rest;
      }
    }
  }

  /** The replacement chain of the formatter removes every space and puts exactly
      one space after each '-' and each '+'. */
  lemma CompactIsRespaced(s: string)
    ensures Compact(s) == Respaced(s)
  {
    ReplacementsRespace(s);
    CollapseRespaced(s);
  }

  // ---------------------------------------------------------------------------
  // An independent definition of the printed text

  /** The printed form of one term: the first omits "+ ", every other carries its sign. */
  function Piece(first: bool, i: nat, a: real, render: Render): string {
    (if a < 0.0 then "- " else if first then "" else "+ ") + render(Abs(a)) + VariableName(i)
  }

  /** The printed form of the coefficients from index `i` on, "0" if none is nonzero
      and nothing has been printed yet. */
  function PrintedFrom(coefs: seq<real>, i: nat, first: bool, render: Render): string
    requires i <= |coefs|
    decreases |coefs| - i
  {
    if i == |coefs| then (if first then "0" else "")
    else if coefs[i] == 0.0 then PrintedFrom(coefs, i + 1, first, render)
    else Piece(first, i, coefs[i], render) + PrintedFrom(coefs, i + 1, false, render)
  }

  lemma RespacedCons(c: char, x: string)
    ensures Respaced([c] + x) == SignSpaced(c) + Respaced(x)
  {
    assert ([c] + x)[0] == c && ([c] + x)[1..] == x;
  }

  /** A term's magnitude and name lose the space between them and nothing else. */
  lemma RespacedText(m: string, name: string)
    requires PlainText(m) && PlainText(name)
    ensures Respaced(m + " " + name) == m + name
  {
    var tail := [' '] + name;
    assert m + " " + name == m + tail;
    assert Respaced(m) == m by { RespacedPlain(m); }
    assert Respaced(name) == name by { RespacedPlain(name); }
    assert Respaced(tail) == name by { RespacedCons(' ', name); }
    assert Respaced(m + tail) == m + name by { RespacedConcat(m, tail); }
  }

  lemma RespacedSeparated(sg: char, x: string)
    ensures Respaced(" " + [sg] + " " + x) == SignSpaced(sg) + Respaced(x)
  {
    assert " " + [sg] + " " + x == [' '] + ([sg] + ([' '] + x));
    RespacedCons(' ', [sg] + ([' '] + x));
    RespacedCons(sg, [' '] + x);
    RespacedCons(' ', x);
  }

  lemma RespacedLead(neg: bool, x: string)
    ensures Respaced((if neg then "- " else "") + x) == (if neg then "- " else "") + Respaced(x)
  {
    if neg {
      assert "- " + x == ['-'] + ([' '] + x);
      RespacedCons('-', [' '] + x);
      RespacedCons(' ', x);
    } else {
      assert "" + x == x;
    }
  }

  /** A term's text, once respaced, is its magnitude followed directly by its name. */
  lemma TermTextRespaced(i: nat, a: real, render: Render)
    requires PlainText(render(Abs(a)))
    ensures Respaced(TermOf(i, a, render).text) == render(Abs(a)) + VariableName(i)
  {
    NatToStringPlain(i + 1);
    RespacedText(render(Abs(a)), VariableName(i));
  }

  lemma LaterPiece(i: nat, a: real, render: Render)
    ensures Piece(false, i, a, render) == SignSpaced(TermOf(i, a, render).sign) + render(Abs(a)) + VariableName(i)
  {
  }

  /** A term after the first, once respaced, is its printed piece. */
  lemma LaterTermRespaced(i: nat, a: real, render: Render)
    requires a != 0.0 && PlainText(render(Abs(a)))
    ensures Respaced(Separated(TermOf(i, a, render))) == Piece(false, i, a, render)
  {
    var t := TermOf(i, a, render);
    RespacedSeparated(t.sign, t.text);
    TermTextRespaced(i, a, render);
    LaterPiece(i, a, render);
  }

  /** The first term, with its "- " when negative, once respaced, is its printed piece. */
  lemma FirstTermRespaced(i: nat, a: real, render: Render)
    requires a != 0.0 && PlainText(render(Abs(a)))
    ensures Respaced((if a < 0.0 then "- " else "") + TermOf(i, a, render).text) == Piece(true, i, a, render)
  {
    var m, name := render(Abs(a)), VariableName(i);
    NatToStringPlain(i + 1);
    RespacedText(m, name);
    RespacedLead(a < 0.0, TermOf(i, a, render).text);
  }

  lemma {:induction false} RestMatchesPrinted(coefs: seq<real>, i: nat, render: Render)
    requires i <= |coefs| && CleanOn(coefs, render)
    ensures Respaced(JoinRest(CollectTerms(coefs, i, render))) == PrintedFrom(coefs, i, false, render)
    decreases |coefs| - i
  {
    if i < |coefs| {
      RestMatchesPrinted(coefs, i + 1, render);
      if coefs[i] != 0.0 {
        var t := TermOf(i, coefs[i], render);
        var ts := CollectTerms(coefs, i, render);
        assert ts == [t] + CollectTerms(coefs, i + 1, render);
        assert ts[1..] == CollectTerms(coefs, i + 1, render);
        calc {
          Respaced(JoinRest(ts));
        == { RespacedConcat(Separated(t), JoinRest(ts[1..])); }
          Respaced(Separated(t)) + Respaced(JoinRest(ts[1..]));
        == { LaterTermRespaced(i, coefs[i], render); }
          Piece(false, i, coefs[i], render) + PrintedFrom(coefs, i + 1, false, render);
        }} else {
        assert CollectTerms(coefs, i, render) == CollectTerms(coefs, i + 1, render);
      }
    }
  }

  lemma {:induction false} JoinedMatchesPrinted(coefs: seq<real>, i: nat, render: Render)
    requires i <= |coefs| && CleanOn(coefs, render)
    ensures CollectTerms(coefs, i, render) == [] ==> PrintedFrom(coefs, i, true, render) == "0"
    ensures CollectTerms(coefs, i, render) != [] ==>
      Respaced(Joined(CollectTerms(coefs, i, render))) == PrintedFrom(coefs, i, true, render)
    decreases |coefs| - i
  {
    if i < |coefs| {
      JoinedMatchesPrinted(coefs, i + 1, render);
      if coefs[i] != 0.0 {
        var t := TermOf(i, coefs[i], render);
        var ts := CollectTerms(coefs, i, render);
        assert ts == [t] + CollectTerms(coefs, i + 1, render);
        assert ts[1..] == CollectTerms(coefs, i + 1, render);
        var lead := if t.sign == '-' then "- " else "";
        assert t.sign == '-' <==> coefs[i] < 0.0;
        calc {
          Respaced(Joined(ts));
        == { RespacedConcat(lead + t.text, JoinRest(ts[1..])); }
          Respaced(lead + t.text) + Respaced(JoinRest(ts[1..]));
        == { FirstTermRespaced(i, coefs[i], render); RestMatchesPrinted(coefs, i + 1, render); }
          Piece(true, i, coefs[i], render) + PrintedFrom(coefs, i + 1, false, render);
        }} else {
        assert CollectTerms(coefs, i, render) == CollectTerms(coefs, i + 1, render);
      }
    }
  }

  /** When every magnitude renders as plain text, the formatter prints exactly one
      piece per nonzero coefficient in index order: "- " before a negative one,
      "+ " before a later positive one, nothing before a leading positive one,
      then the magnitude and "x<i+1>"; "0" when no coefficient is nonzero. */
  lemma FormatMatchesPrinted(coefs: seq<real>, render: Render)
    requires CleanOn(coefs, render)
    ensures Format(coefs, render) == PrintedFrom(coefs, 0, true, render)
  {
    JoinedMatchesPrinted(coefs, 0, render);
    var ts := CollectTerms(coefs, 0, render);
    if ts != [] {
      CompactIsRespaced(Joined(ts));
    }
  }

  /** The result is "0" exactly when the list is empty or all its coefficients are zero,
      whatever the magnitudes render as. */
  lemma FormatZeroIff(coefs: seq<real>, render: Render)
    ensures Format(coefs, render) == "0" <==> forall k :: 0 <= k < |coefs| ==> coefs[k] == 0.0
  {
    CollectTermsEmpty(coefs, 0, render);
    var ts := CollectTerms(coefs, 0, render);
    if ts != [] {
      TermsFollowNonzeroIndices(coefs, 0, render);
      var text := ts[0].text;
      assert 'x' in text by {
        var n := VariableName(NonzeroIndices(coefs, 0)[0]);
        assert text[|text| - |n|] == n[0];
      }
      var j := Joined(ts);
      assert 'x' in j by {
        var lead := if ts[0].sign == '-' then "- " else "";
        var w :| 0 <= w < |text| && text[w] == 'x';
        assert j[|lead| + w] == 'x';
      }
      RespacedKeeps(j, 'x');
      CompactIsRespaced(j);
    }
  }

  /** A magnitude rendering that does not start with a space or a sign; Python's
      rendering of a positive number starts with a digit. */
  predicate PlainStart(m: string) {
    |m| == 0 || (m[0] != ' ' && m[0] != '-' && m[0] != '+')
  }

  /** When every coefficient before j is zero, the terms start with j's. */
  lemma {:induction false} CollectFirst(coefs: seq<real>, i: nat, j: nat, render: Render)
    requires i <= j < |coefs| && coefs[j] != 0.0
    requires forall k :: i <= k < j ==> coefs[k] == 0.0
    ensures CollectTerms(coefs, i, render) == [TermOf(j, coefs[j], render)] + CollectTerms(coefs, j + 1, render)
    decreases j - i
  {
    if i < j {
      CollectFirst(coefs, i + 1, j, render);
    }
  }

  /** A string that starts with neither a space nor a sign keeps its first character. */
  lemma RespacedStart(x: string)
    requires |x| > 0 && x[0] != ' ' && x[0] != '-' && x[0] != '+'
    ensures |Respaced(x)| > 0 && Respaced(x)[0] == x[0]
  {
    RespacedCons(x[0], x[1..]);
    assert [x[0]] + x[1..] == x;
  }

  /** A term's text followed by anything respaces to a string that starts with neither
      a space nor a sign. */
  lemma RespacedTermStart(m: string, name: string, x: string)
    requires PlainStart(m) && |name| > 0 && name[0] == 'x'
    ensures var r := Respaced(m + " " + name + x);
      |r| > 0 && r[0] != ' ' && r[0] != '-' && r[0] != '+'
  {
    var y := m + " " + name + x;
    if |m| > 0 {
      assert y[0] == m[0];
      RespacedStart(y);
    } else {
      var z := name + x;
      assert y == [' '] + z;
      RespacedCons(' ', z);
      assert z[0] == 'x';
      RespacedStart(z);
    }
  }

  /** The expression never starts with '+', and starts with '-' exactly when the
      first nonzero coefficient, j, is negative. Only that coefficient's rendering
      matters: the later ones may print in scientific notation. */
  lemma LeadingSign(coefs: seq<real>, j: nat, render: Render)
    requires j < |coefs| && coefs[j] != 0.0 && PlainStart(render(Abs(coefs[j])))
    requires forall k :: 0 <= k < j ==> coefs[k] == 0.0
    ensures |Format(coefs, render)| > 0
    ensures Format(coefs, render)[0] != '+'
    ensures Format(coefs, render)[0] == '-' <==> coefs[j] < 0.0
  {
    var m, name := render(Abs(coefs[j])), VariableName(j);
    var t := TermOf(j, coefs[j], render);
    var rest := JoinRest(CollectTerms(coefs, j + 1, render));
    var neg := coefs[j] < 0.0;
    var lead := if neg then "- " else "";
    CollectFirst(coefs, 0, j, render);
    var ts := CollectTerms(coefs, 0, render);
    assert ts[0] == t && ts[1..] == CollectTerms(coefs, j + 1, render);
    assert Joined(ts) == lead + (m + " " + name + rest);
    CompactIsRespaced(Joined(ts));
    RespacedLead(neg, m + " " + name + rest);
    RespacedTermStart(m, name, rest);
  }

  // ---------------------------------------------------------------------------
  // Concrete cases

  lemma SmallVariableName(i: nat)
    requires i < 9
    ensures VariableName(i) == ['x', DigitChar(i + 1)]
  {
  }

  lemma DocstringPrinted(render: Render)
    requires render(3.0) == "3" && render(2.0) == "2" && render(5.0) == "5"
    ensures PrintedFrom([3.0, -2.0, 5.0], 0, true, render) == "3x1- 2x2+ 5x3"
  {
    var coefs := [3.0, -2.0, 5.0];
    assert PrintedFrom(coefs, 2, false, render) == "+ 5x3" by {
      SmallVariableName(2);
      assert PrintedFrom(coefs, 3, false, render) == "";
      assert Piece(false, 2, 5.0, render) == "+ 5x3";
    }
    assert PrintedFrom(coefs, 1, false, render) == "- 2x2+ 5x3" by {
      SmallVariableName(1);
      assert Piece(false, 1, -2.0, render) == "- 2x2";
    }
    assert Piece(true, 0, 3.0, render) == "3x1" by {
      SmallVariableName(0);
    }
  }

  /** The docstring promises "3x1 - 2x2 + 5x3"; the code prints "3x1- 2x2+ 5x3". */
  lemma DocstringExample(render: Render)
    requires render(3.0) == "3" && render(2.0) == "2" && render(5.0) == "5"
    ensures Format([3.0, -2.0, 5.0], render) == "3x1- 2x2+ 5x3"
  {
    var coefs := [3.0, -2.0, 5.0];
    assert CleanOn(coefs, render) by {
      forall k | 0 <= k < |coefs| && coefs[k] != 0.0
        ensures PlainText(render(Abs(coefs[k])))
      {
        assert k == 0 || k == 1 || k == 2;
      }
    }
    FormatMatchesPrinted(coefs, render);
    DocstringPrinted(render);
  }

  /** A magnitude with a negative exponent, "<d>-<e>", keeps its digits but its
      exponent sign gains a space, exactly like a term's sign. */
  lemma RespacedExponent(d: string, e: string, name: string)
    requires PlainText(d) && PlainText(e) && PlainText(name)
    ensures Respaced(d + "-" + e + " " + name) == d + "- " + e + name
  {
    var x := e + " " + name;
    ExponentSplit(d, e, name);
    RespacedText(e, name);
    RespacedCons('-', x);
    RespacedPlainPrefix(d, ['-'] + x);
  }

  lemma ExponentSplit(d: string, e: string, name: string)
    ensures d + "-" + e + " " + name == d + (['-'] + (e + " " + name))
  {
  }

  /** A positive coefficient whose magnitude renders with a negative exponent,
      "<d>-<e>" (Python prints 0.00001 as "1e-05"), has that exponent sign spaced like
      a term's sign: the expression reads "1e- 05x1". */
  lemma ScientificMagnitudeSplit(a: real, d: string, e: string, render: Render)
    requires a > 0.0 && PlainText(d) && PlainText(e) && render(a) == d + "-" + e
    ensures Format([a], render) == d + "- " + e + VariableName(0)
  {
    var coefs := [a];
    var name := VariableName(0);
    var t := TermOf(0, a, render);
    assert Abs(a) == a;
    assert CollectTerms(coefs, 1, render) == [];
    assert CollectTerms(coefs, 0, render) == [t];
    assert Joined([t]) == t.text;
    assert t.text == d + "-" + e + " " + name;
    NatToStringPlain(1);
    CompactIsRespaced(t.text);
    RespacedExponent(d, e, name);
  }
}
