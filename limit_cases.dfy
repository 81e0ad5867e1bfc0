/** Worked cases of the LIMIT enforcer on concrete queries, showing what the
    plain substring test for " limit " does and does not detect. */
module LimitCases {
  import opened Text
  import opened LimitEnforcer

  const Bounded: string := "SELECT * FROM t LIMIT 50"
  const Quoted: string := "SELECT a FROM t WHERE b = ' limit '"
  const Plain: string := "SELECT dept FROM budgets"
  const NewlineBound: string := "SELECT a FROM t\nLIMIT 5"

  lemma BoundedHasToken()
    ensures Contains(Lower(Bounded), LimitToken)
  {
    assert Lower(Bounded)[15..22] == LimitToken;
    assert OccursAt(Lower(Bounded), LimitToken, 15);
  }

  /** An existing bound of 50 is left as it is; only the terminator is added. */
  lemma ExistingBoundKept()
    ensures ForceLimit(Bounded, 200) == Bounded + ";"
  {
    StripUnchanged(Bounded);
    assert Trimmed(Bounded) == Bounded;
    BoundedHasToken();
  }

  lemma QuotedHasToken()
    ensures Contains(Lower(Quoted), LimitToken)
  {
    assert Lower(Quoted)[27..34] == LimitToken;
    assert OccursAt(Lower(Quoted), LimitToken, 27);
  }

  /** " limit " inside a string literal counts as a bound: nothing is appended. */
  lemma QuotedTokenCountsAsBound()
    ensures ForceLimit(Quoted + ";", 200) == Quoted + ";"
  {
    TrimmedOfTerminated(Quoted);
    QuotedHasToken();
  }

  lemma PlainHasNoToken()
    ensures !Contains(Lower(Plain), LimitToken)
  {
    var v := Lower(Plain);
    forall i | 0 <= i <= |v| ensures !OccursAt(v, LimitToken, i) {
      if i + 7 <= |v| {
        assert v[i..i + 7][0] == v[i] && v[i..i + 7][1] == v[i + 1];
        if i != 6 && i != 11 && i != 16 { assert v[i] != ' '; } else { assert v[i + 1] != 'l'; }
      }
    }
  }

  /** A query without a bound gets " LIMIT 200" before its terminator. */
  lemma PlainQueryBounded()
    ensures IntToString(200) == "200"
    ensures ForceLimit(Plain, 200) == Plain + " LIMIT " + IntToString(200) + ";"
  {
    StripUnchanged(Plain);
    assert Trimmed(Plain) == Plain;
    PlainHasNoToken();
    ForceLimitAppendsBound(Plain, 200);
    assert NatToString(200) == NatToString(20) + "0" == NatToString(2) + "0" + "0";
  }

  lemma NewlineBoundHasNoToken()
    ensures !Contains(Lower(NewlineBound), LimitToken)
  {
    var v := Lower(NewlineBound);
    forall i | 0 <= i <= |v| ensures !OccursAt(v, LimitToken, i) {
      if i + 7 <= |v| {
        assert v[i..i + 7][0] == v[i] && v[i..i + 7][1] == v[i + 1];
        if i != 6 && i != 8 && i != 13 { assert v[i] != ' '; } else { assert v[i + 1] != 'l'; }
      }
    }
  }

  /** A bound written on its own line is not preceded by a space, so it is
      not seen and a second bound is appended. */
  lemma NewlineBoundMissed()
    ensures ForceLimit(NewlineBound, 200) == NewlineBound + " LIMIT " + IntToString(200) + ";"
  {
    StripUnchanged(NewlineBound);
    assert Trimmed(NewlineBound) == NewlineBound;
    NewlineBoundHasNoToken();
    ForceLimitAppendsBound(NewlineBound, 200);
  }
}
