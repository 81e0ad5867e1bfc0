/** The request handling of the query page and the history it keeps in the
    session: one entry per answered question, newest first, of which the
    page shows the ten most recent. */
module Ledger {
  import opened Text
  import opened LimitEnforcer

  datatype Option<T> = None | Some(value: T)

  /** What `ask_db(q)` hands back, reduced to what the page reads: the
      generated SQL text (`None` when the "sql" key is absent), the number of
      rows of the returned data frame (`None` when no data frame was
      returned) and the "error" value (`None` when absent). */
  datatype AskResult = AskResult(sql: Option<string>, frameRows: Option<nat>, error: Option<string>)

  /** One history record: the question, the SQL text logged for it, the row
      count and the error as returned. */
  datatype Entry = Entry(q: string, sql: string, rows: nat, error: Option<string>)

  /** How many history entries the page shows. */
  const HistoryShown: nat := 10

  /** `result.get("sql", "")`. */
  function ReturnedSql(res: AskResult): string {
    match res.sql
    case Some(s) => s
    case None => ""
  }

  /** `len(df) if isinstance(df, pd.DataFrame) else 0`. */
  function FrameRows(res: AskResult): nat {
    match res.frameRows
    case Some(n) => n
    case None => 0
  }

  /** Python truthiness of the error value: present and not the empty string. */
  predicate ErrorRaised(error: Option<string>) {
    error.Some? && error.value != ""
  }

  class Session {
    /** `st.session_state.history`, most recent entry first. */
    var history: seq<Entry>

    /** A new session starts with an empty history. */
    constructor ()
      ensures history == []
    {
      history := [];
    }

    /** One pass of the page's action block. Nothing happens unless the Run
        button was pressed and the question is a non-empty string. Otherwise
        the returned SQL is stripped, enforced when `addLimit` is set and it
        is not empty, and one entry is put in front of the history. The
        result `sql` is the text logged (and shown, if at all); `reported` is
        the count the success message shows, `None` when the error is shown
        instead. */
    method Handle(run: bool, q: string, addLimit: bool, limitRows: int, res: AskResult)
      returns (acted: bool, sql: string, reported: Option<nat>)
      modifies this
      ensures acted <==> run && q != []
      ensures !acted ==> history == old(history) && sql == [] && reported == None
      ensures acted ==> |history| == |old(history)| + 1 && history[1..] == old(history)
      ensures acted ==> history[0] == Entry(q, sql, FrameRows(res), res.error)
      ensures acted && addLimit && Strip(ReturnedSql(res)) != [] ==>
        sql == ForceLimit(Strip(ReturnedSql(res)), limitRows) &&
        Contains(Lower(sql), LimitToken) && sql[|sql| - 1] == ';'
      ensures acted && !(addLimit && Strip(ReturnedSql(res)) != []) ==> sql == Strip(ReturnedSql(res))
      ensures acted ==> reported == if ErrorRaised(res.error) then None else Some(FrameRows(res))
    {
      acted := run && q != [];
      sql, reported := [], None;
      if acted {
        sql := Strip(ReturnedSql(res));
        if addLimit && sql != [] {
          var raw := sql;
          sql := ForceLimit(raw, limitRows);
          ForceLimitHasToken(raw, limitRows);
          ForceLimitTerminated(raw, limitRows);
        }
        var error := res.error;
        if !ErrorRaised(error) {
          var rows := FrameRows(res);
          reported := Some(rows);
        }
        history := [Entry(q, sql, FrameRows(res), error)] + history;
      }
    }

    /** `history[:10]`: the entries the page shows, most recent first. */
    function Recent(): (r: seq<Entry>)
      reads this
      ensures |r| == if |history| < HistoryShown then |history| else HistoryShown
      ensures r == history[..|r|]
    {
      if |history| < HistoryShown then history else history[..HistoryShown]
    }
  }

  /** Two answered questions in a fresh session are shown newest first, each
      with what its own call returned. */
  method TwoRequests(q1: string, res1: AskResult, q2: string, res2: AskResult, addLimit: bool, k: int)
    returns (view: seq<Entry>)
    requires q1 != [] && q2 != []
    ensures |view| == 2
    ensures view[0].q == q2 && view[0].rows == FrameRows(res2) && view[0].error == res2.error
    ensures view[1].q == q1 && view[1].rows == FrameRows(res1) && view[1].error == res1.error
  {
    var session := new Session();
    var _, _, _ := session.Handle(true, q1, addLimit, k, res1);
    var _, _, _ := session.Handle(true, q2, addLimit, k, res2);
    view := session.Recent();
  }
}
