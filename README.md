# Ask My Database: LIMIT enforcer and request history

This project models the logic inside the Streamlit page `UI/app_streamlit.py`
of the TEXT-TO-SQL application. The page lets a user ask a question in plain
English. The translator then produces SQL and runs it. Two pieces of the page
are real logic, and they are what is modelled here:

- **The LIMIT enforcer** `_force_limit(sql, k)`. It strips surrounding
  whitespace and then every trailing `;`. It lower-cases the result and looks
  for the literal substring `" limit "`, with a space on each side. If that
  substring is missing, it appends `" LIMIT <k>"`. Then it adds one `;`.
  Module `LimitEnforcer` (file `limit.dfy`) holds it as a function with
  lemmas. Module `LimitCases` (file `limit_cases.dfy`) works through concrete
  queries.
- **The request history.** `st.session_state.history` is a list owned by the
  session. It starts empty. Each answered question puts one record in front
  of it. The page shows the first ten records. Module `Ledger` (file
  `ledger.dfy`) models this as a `Session` class with a `history` field. Its
  `Handle` method is one pass of the page's action block. Its `Recent`
  function is the `history[:10]` view.

Module `Text` (file `text.dfy`) holds the Python string operations these
rely on: `strip`, `rstrip`, `lower`, the `in` substring test and the decimal
text of an `int`.

Behaviour a reader might not expect, followed as the code has it:
- Bound detection is the plain substring test. It is not word-boundary
  matching. `LimitCases.QuotedTokenCountsAsBound` and
  `LimitCases.NewlineBoundMissed` show the consequences.
- An empty question has no tagged failure. The block simply does not run.
- A question made only of whitespace is processed.
- The history is never capped or evicted.
- With enforcement off, the SQL text is only stripped. No terminator is added.
- The enforced query is never executed again. The rows shown are those
  `ask_db` returned.

## Model

| member | source | states |
|---|---|---|
| Text.LStrip | UI/app_streamlit.py:41 | the result is a suffix of the input; every character dropped is in the strip set; the result is empty or starts outside the set |
| Text.RStrip | UI/app_streamlit.py:41 | the result is a prefix of the input; every character dropped is in the strip set; the result is empty or ends outside the set |
| Text.Strip | UI/app_streamlit.py:51 | `str.strip()` leaves text that neither starts nor ends with whitespace and is no longer than the input |
| Text.StripPlaced | UI/app_streamlit.py:41 | the stripped text occurs in the input with only whitespace before and after it |
| Text.NatToString | UI/app_streamlit.py:44 | the decimal text of a natural number is non-empty, all digits, and has no leading zero |
| Text.IntToString | UI/app_streamlit.py:44 | the text `f"{k}"` is non-empty, ends in a digit, carries a leading `-` exactly when `k` is negative, and has no leading zero: it is `0` itself or starts with a non-zero digit, or with `-` followed by a non-zero digit |
| Text.ParseNatToString | UI/app_streamlit.py:44 | reading the decimal text of `n` back gives `n` |
| Text.ParseIntToString | UI/app_streamlit.py:44 | the text of `k` is a well-formed integer literal that reads back as `k` |
| LimitEnforcer.Trimmed | UI/app_streamlit.py:41 | the trimmed text is a prefix of the stripped text followed only by `;`; it is empty or starts with non-whitespace and does not end in `;` |
| Text.LowerChar | UI/app_streamlit.py:43 | ASCII `str.lower` on one character: `A`-`Z` go to the matching `a`-`z`, every other character is kept, and the result is never an upper-case ASCII letter |
| Text.Lower | UI/app_streamlit.py:43 | plain definition of `s.lower()` as LowerChar on every character, with no ensures of its own; `Text.LowerCases` and `Text.LowerAppend` describe it |
| Text.LowerCases | UI/app_streamlit.py:43 | the lower-cased text has the input's length, no upper-case ASCII letter, and every other character in place |
| Text.Contains | UI/app_streamlit.py:43 | plain definition of Python's `pat in s` (some index where `pat` occurs), with no ensures of its own; `LimitEnforcer.ForceLimitKeepsBound`, `LimitEnforcer.ForceLimitHasToken` and `LimitEnforcer.NoTokenAfterLeadingLimit` are stated with it |
| LimitEnforcer.ForceLimit | UI/app_streamlit.py:40-45 | `_force_limit` itself: the trimmed text is kept unchanged at the front and the result ends in `;`; what lies between is given by `ForceLimitTerminated`, `ForceLimitKeepsBound`, `ForceLimitAppendsBound`, `ForceLimitHasToken` and `ForceLimitIdempotent` |
| LimitEnforcer.ForceLimitTerminated | UI/app_streamlit.py:41-45 | the output ends in exactly one `;`; before that `;` it is the trimmed text, or the trimmed text followed by ` LIMIT ` and the digits of `k` |
| LimitEnforcer.ForceLimitKeepsBound | UI/app_streamlit.py:43-45 | the output is the trimmed text plus `;`, with nothing appended, exactly when the lower-cased trimmed text contains ` limit ` |
| LimitEnforcer.ForceLimitAppendsBound | UI/app_streamlit.py:43-45 | without ` limit ` in the lower-cased trimmed text, the output is the trimmed text, then ` LIMIT `, then the decimal `k`, then `;` |
| LimitEnforcer.ForceLimitHasToken | UI/app_streamlit.py:42-45 | for every input, the lower-cased output contains ` limit ` |
| LimitEnforcer.ForceLimitIdempotent | UI/app_streamlit.py:41-45 | when the trimmed text is not empty, enforcing twice with the same `k` equals enforcing once |
| LimitEnforcer.ForceLimitOfEmpty | UI/app_streamlit.py:41-45 | a text that trims to nothing becomes ` LIMIT k;` |
| LimitEnforcer.NoTokenAfterLeadingLimit | UI/app_streamlit.py:43 | `LIMIT k` with no leading space does not contain ` limit ` once lower-cased |
| LimitEnforcer.ForceLimitNotIdempotentOnEmpty | UI/app_streamlit.py:41-45 | for a text that trims to nothing, a second application gives `LIMIT k LIMIT k;`, which differs from the first result |
| LimitCases.ExistingBoundKept | UI/app_streamlit.py:43-45 | `SELECT * FROM t LIMIT 50` keeps its bound of 50 with `k` = 200; only `;` is added |
| LimitCases.QuotedTokenCountsAsBound | UI/app_streamlit.py:43 | ` limit ` inside a quoted string literal counts as a bound, so nothing is appended |
| LimitCases.PlainQueryBounded | UI/app_streamlit.py:43-45 | `SELECT dept FROM budgets` with `k` = 200 becomes the same text followed by ` LIMIT 200;` |
| LimitCases.NewlineBoundMissed | UI/app_streamlit.py:43 | a `LIMIT 5` written after a line break is not seen, and ` LIMIT 200` is appended as well |
| Ledger.ReturnedSql | UI/app_streamlit.py:51 | plain definition of `result.get("sql", "")`, with no ensures of its own; `Ledger.Session.Handle` is stated with it |
| Ledger.FrameRows | UI/app_streamlit.py:95 | plain definition of `len(df) if isinstance(df, pd.DataFrame) else 0` (also line 71), with no ensures of its own; `Ledger.Session.Handle` and `Ledger.TwoRequests` are stated with it |
| Ledger.ErrorRaised | UI/app_streamlit.py:62 | plain definition of the truthiness test `if error:` (present and non-empty), with no ensures of its own; `Ledger.Session.Handle` is stated with it |
| Ledger.Session.constructor | UI/app_streamlit.py:30-31 | a new session's history is empty |
| Ledger.Session.Handle | UI/app_streamlit.py:48-97 | acts exactly when `run` is set and `q` is non-empty, whitespace-only included; otherwise the history is unchanged. When it acts, it puts exactly one entry in front and leaves the earlier entries unchanged and in order. The logged and shown `sql` is the enforced stripped text when `addLimit` is set and that text is non-empty, and it then ends in `;` and contains ` limit ` once lower-cased (which need not be a real row bound, see `LimitCases.QuotedTokenCountsAsBound`); otherwise it is the stripped text, empty when no SQL was returned. The logged rows is the frame length, or 0 without a frame, even when an error is set. The error is stored verbatim. The success message shows the same count unless the error is truthy |
| Ledger.Session.Recent | UI/app_streamlit.py:102 | the view is a prefix of the history holding the smaller of 10 and the history length, so it is most recent first and is the whole history when there are fewer than ten |
| Ledger.TwoRequests | UI/app_streamlit.py:92-102 | after two answered questions in a new session, the view lists the second one first and the first one second, each with its own row count and error |

## Left out

- Widgets, layout, spinners, the code, dataframe and error rendering, and the history accordion markup (UI/app_streamlit.py:12-38, 56-57, 62-63, 73-79, 100-110) are display only. `Handle` returns the SQL text and the success-message count. It does not model the `show_sql_first` choice of whether and where the SQL is shown: with a truthy error and `show_sql_first` off, the page shows no SQL at all (lines 74-75 sit inside the `else` of line 62).
- `ask_db` (UI/app_streamlit.py:10, 50) calls a language model and a database whose code is not part of this model. Its return value is the input record `AskResult`: optional SQL text, an optional frame row count and an optional error.
- `AskResult` does not model a `"sql"` key that is present but `None`, on which the page's `.strip()` raises. It also does not model error values that are not strings. Only `None`, empty and non-empty strings are modelled.
- pandas data frames are reduced to their length. CSV export and download (UI/app_streamlit.py:4, 82-89) are library and file mechanics.
- The "re-run if needed" branch (UI/app_streamlit.py:65-69) does nothing, so it has no counterpart.
- The row-limit widget range of 10 to 10000 (UI/app_streamlit.py:23) is not a precondition. The enforcer is modelled for every integer `k`, negative ones included.
- Python's Unicode `str.strip` and `str.lower` are modelled on ASCII only. Whitespace is the ASCII set that `str.isspace` accepts: tab, line feed, vertical tab, form feed, carriage return, 0x1C-0x1F and space. Lower-casing maps only `A`-`Z`. Other characters pass through unchanged.
- Streamlit re-runs the whole script on every interaction. The model treats one run of the action block as one `Handle` call, with the button state and the question as inputs.
