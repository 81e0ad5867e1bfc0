/** The LIMIT enforcer of the query page (`_force_limit`): it normalises a
    generated SQL text and appends a row bound unless the text already
    mentions one. The test for an existing bound is the plain,
    case-insensitive substring test for " limit " (with a space on each side);
    there is no tokenising and no word-boundary matching. */
module LimitEnforcer {
  import opened Text

  /** What the lower-cased text is searched for. */
  const LimitToken: string := " limit "

  const Semicolon: set<char> := {';'}

  /** `sql.strip().rstrip(";")`: surrounding whitespace removed, then every
      trailing `;`. What remains of the stripped text is all `;`. */
  function Trimmed(sql: string): (t: string)
    ensures t == [] || (t[0] !in Whitespace && t[|t| - 1] != ';')
    ensures |t| <= |Strip(sql)| && t == Strip(sql)[..|t|] && AllIn(Strip(sql)[|t|..], Semicolon)
  {
    var stripped := Strip(sql);
    var t := RStrip(stripped, Semicolon);
    assert t != [] ==> t[0] == stripped[0];
    assert AllIn(stripped[|t|..], Semicolon) by {
      forall i | 0 <= i < |stripped| - |t| ensures stripped[|t|..][i] in Semicolon {
        assert stripped[|t|..][i] == stripped[|t| + i];
      }
    }
    t
  }

  /** `_force_limit(sql, k)`. The trimmed text is kept unchanged at the front
      and the result ends in `;`; the lemmas below say what lies between. */
  function ForceLimit(sql: string, k: int): (r: string)
    ensures |r| > |Trimmed(sql)| && r[..|Trimmed(sql)|] == Trimmed(sql) && r[|r| - 1] == ';'
  {
    var s := Trimmed(sql);
    if !Contains(Lower(s), LimitToken) then s + " LIMIT " + IntToString(k) + ";" else s + ";"
  }

  // ---------------------------------------------------------------------------
  // Helpers about stripping and searching

  lemma StripUnchanged(t: string)
    requires t != [] && t[0] !in Whitespace && t[|t| - 1] !in Whitespace
    ensures Strip(t) == t
  {
    assert LStrip(t, Whitespace) == t;
    assert RStrip(t, Whitespace) == t;
  }

  lemma OccursInLonger(a: string, b: string, pat: string, i: int)
    requires OccursAt(a, pat, i)
    ensures OccursAt(a + b, pat, i)
  {
    assert (a + b)[i..i + |pat|] == a[i..i + |pat|];
  }

  /** The token " LIMIT " written right after `t` is found, in lower case, at `|t|`. */
  lemma AppendedTokenFound(t: string, rest: string)
    ensures OccursAt(Lower(t + " LIMIT " + rest), LimitToken, |t|)
  {
    var v := Lower(t + " LIMIT " + rest);
    assert |v| == |t| + 7 + |rest|;
    forall j | 0 <= j < 7 ensures v[|t| + j] == LimitToken[j] {
      assert (t + " LIMIT " + rest)[|t| + j] == " LIMIT "[j];
    }
    assert v[|t|..|t| + 7] == LimitToken;
  }

  /** Text ending in `u` followed by a single `;`, with `u` not ending in `;`
      and not starting with whitespace, is trimmed back to `u`. */
  lemma TrimmedOfTerminated(u: string)
    requires u != [] && u[0] !in Whitespace && u[|u| - 1] != ';'
    ensures Trimmed(u + ";") == u
  {
    var r := u + ";";
    StripUnchanged(r);
    assert r[..|r| - 1] == u;
    assert RStrip(r, Semicolon) == RStrip(u, Semicolon);
  }

  // ---------------------------------------------------------------------------
  // Properties of ForceLimit

  /** The result ends in exactly one `;`, and what precedes it is either the
      trimmed text alone or the trimmed text followed by " LIMIT " and the
      digits of `k`. */
  lemma ForceLimitTerminated(sql: string, k: int)
    ensures var r := ForceLimit(sql, k);
      |r| >= 1 && r[|r| - 1] == ';' && (|r| >= 2 ==> r[|r| - 2] != ';') &&
      (r[..|r| - 1] == Trimmed(sql) || r[..|r| - 1] == Trimmed(sql) + " LIMIT " + IntToString(k))
  {
    var t := Trimmed(sql);
    var r := ForceLimit(sql, k);
    if Contains(Lower(t), LimitToken) {
      assert r[..|r| - 1] == t;
    } else {
      var u := t + " LIMIT " + IntToString(k);
      assert r == u + ";" && r[..|r| - 1] == u;
      assert r[|r| - 2] == u[|u| - 1];
    }
  }

  /** Nothing is appended, and so no existing bound is altered, exactly when
      the lower-cased trimmed text already contains " limit ". */
  lemma ForceLimitKeepsBound(sql: string, k: int)
    ensures ForceLimit(sql, k) == Trimmed(sql) + ";" <==> Contains(Lower(Trimmed(sql)), LimitToken)
  {
    var t := Trimmed(sql);
    if !Contains(Lower(t), LimitToken) {
      assert |ForceLimit(sql, k)| > |t + ";"|;
    }
  }

  /** Without " limit " in the lower-cased trimmed text, the bound `k` is appended. */
  lemma ForceLimitAppendsBound(sql: string, k: int)
    requires !Contains(Lower(Trimmed(sql)), LimitToken)
    ensures ForceLimit(sql, k) == Trimmed(sql) + " LIMIT " + IntToString(k) + ";"
  {
  }

  /** Whatever the input, the enforced text contains " limit " once lower-cased. */
  lemma ForceLimitHasToken(sql: string, k: int)
    ensures Contains(Lower(ForceLimit(sql, k)), LimitToken)
  {
    var t := Trimmed(sql);
    if Contains(Lower(t), LimitToken) {
      var i :| 0 <= i <= |Lower(t)| && OccursAt(Lower(t), LimitToken, i);
      LowerAppend(t, ";");
      OccursInLonger(Lower(t), Lower(";"), LimitToken, i);
      assert OccursAt(Lower(ForceLimit(sql, k)), LimitToken, i);
    } else {
      AppendedTokenFound(t, IntToString(k) + ";");
      assert t + " LIMIT " + IntToString(k) + ";" == t + " LIMIT " + (IntToString(k) + ";");
    }
  }

  /** Enforcing twice with the same bound is enforcing once, provided the
      trimmed text is not empty. */
  lemma ForceLimitIdempotent(sql: string, k: int)
    requires Trimmed(sql) != []
    ensures ForceLimit(ForceLimit(sql, k), k) == ForceLimit(sql, k)
  {
    var t := Trimmed(sql);
    var r := ForceLimit(sql, k);
    if Contains(Lower(t), LimitToken) {
      TrimmedOfTerminated(t);
    } else {
      var u := t + " LIMIT " + IntToString(k);
      assert r == u + ";";
      TrimmedOfTerminated(u);
      AppendedTokenFound(t, IntToString(k));
    }
  }

  /** Once the leading space is gone, " limit " no longer occurs: the only
      space in "limit " + d is followed by the first character of `d`, a digit
      or a minus sign. */
  lemma NoTokenAfterLeadingLimit(k: int)
    ensures !Contains(Lower("LIMIT " + IntToString(k)), LimitToken)
  {
    var d := IntToString(k);
    var v := Lower("LIMIT " + d);
    LowerAppend("LIMIT ", d);
    assert Lower("LIMIT ") == "limit ";
    assert v == "limit " + Lower(d);
    forall i | 0 <= i <= |v| ensures !OccursAt(v, LimitToken, i) {
      if i + 7 <= |v| {
        assert v[i..i + 7][0] == v[i] && v[i..i + 7][1] == v[i + 1];
        if i < 5 {
          assert v[i] == "limit "[i] != ' ';
        } else if i == 5 {
          assert v[6] == LowerChar(d[0]) != 'l';
        } else {
          assert v[i] == LowerChar(d[i - 6]) != ' ';
        }
      }
    }
  }

  /** " LIMIT d;" trims to "LIMIT d". */
  lemma TrimmedOfBareBound(d: string)
    requires d != [] && d[|d| - 1] != ';'
    ensures Trimmed(" LIMIT " + d + ";") == "LIMIT " + d
  {
    var r := " LIMIT " + d + ";";
    var u := "LIMIT " + d;
    assert r[1..] == u + ";";
    assert LStrip(r, Whitespace) == LStrip(u + ";", Whitespace);
    StripUnchanged(u + ";");
    TrimmedOfTerminated(u);
  }

  /** A text that trims to nothing is enforced to the bare clause " LIMIT k;". */
  lemma ForceLimitOfEmpty(sql: string, k: int)
    requires Trimmed(sql) == []
    ensures ForceLimit(sql, k) == " LIMIT " + IntToString(k) + ";"
  {
    var t := Trimmed(sql);
    var d := IntToString(k);
    assert Lower(t) == [];
    assert ForceLimit(sql, k) == t + " LIMIT " + d + ";";
    assert t + " LIMIT " + d + ";" == " LIMIT " + d + ";";
  }

  /** For a text that trims to nothing the enforcer is not idempotent: the
      first application gives " LIMIT k;", the second strips the leading space,
      no longer finds " limit ", and appends a second bound. */
  lemma ForceLimitNotIdempotentOnEmpty(sql: string, k: int)
    requires Trimmed(sql) == []
    ensures ForceLimit(sql, k) == " LIMIT " + IntToString(k) + ";"
    ensures ForceLimit(ForceLimit(sql, k), k) == "LIMIT " + IntToString(k) + " LIMIT " + IntToString(k) + ";"
    ensures ForceLimit(ForceLimit(sql, k), k) != ForceLimit(sql, k)
  {
    var d := IntToString(k);
    ForceLimitOfEmpty(sql, k);
    var r := " LIMIT " + d + ";";
    TrimmedOfBareBound(d);
    NoTokenAfterLeadingLimit(k);
    ForceLimitAppendsBound(r, k);
    assert |ForceLimit(r, k)| > |r|;
  }
}
