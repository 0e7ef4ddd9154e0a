/** Two strings joined with a separator. */
module Keys {

  /** Without the separator in the first part, the join determines both parts. */
  lemma {:induction false} JoinInjective(sep: char, a1: string, b1: string, a2: string, b2: string)
    requires sep !in a1 && sep !in a2 && a1 + [sep] + b1 == a2 + [sep] + b2
    ensures a1 == a2 && b1 == b2
  {
    var x, y := a1 + [sep] + b1, a2 + [sep] + b2;
    assert x[|a1|] == sep && forall i | 0 <= i < |a1| :: x[i] == a1[i];
    assert y[|a2|] == sep && forall i | 0 <= i < |a2| :: y[i] == a2[i];
    assert |a1| == |a2|;
    assert x[..|a1|] == a1 && y[..|a2|] == a2;
    assert x[|a1| + 1..] == b1 && y[|a2| + 1..] == b2;
  }
}
