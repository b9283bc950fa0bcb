/**
 * The decision order of the `/query` endpoint in langchain_groq_app/server.py:
 * a balance question with an extractable identifier, then any identifier of the
 * balances table that appears in the text, then the knowledge-base chain, then
 * the language model. The chain and the model are not called here: the reply
 * names the service that answers and what it is given.
 */
module Server {
  import opened Common
  import opened Text
  import opened Scan
  import opened Tables
  import opened Classifier

  /** `QueryResponse(source=..., answer=...)`, with the answers of the chain and
      of the model left to those services. */
  datatype Reply =
    | BalanceReply(answer: string)
    | KbReply(question: string)
    | LlmReply(prompt: string)

  function Source(r: Reply): string
  {
    match r
    case BalanceReply(_) => "balance"
    case KbReply(_) => "kb"
    case LlmReply(_) => "llm"
  }

  const NotFound: string := "ID no encontrado"

  /** Cell `j` of column `c` is an identifier that occurs in the text:
      `val and val in text` over the identifier columns. */
  predicate CellInText(t: Frame, text: string, c: nat, j: nat)
    requires c < |t.columns| && j < |t.rows|
  {
    IsIdColumn(t, c) && t.rows[j][c] != [] && Contains(text, t.rows[j][c])
  }

  /** The fallback scan, column by column and row by row from cell `(c, j)` on:
      the answer for the first identifier cell found in the text. */
  function ScanFrom(t: Frame, text: string, c: nat, j: nat): Option<string>
    decreases |t.columns| - c, |t.rows| - j
  {
    if c >= |t.columns| then None
    else if !IsIdColumn(t, c) || j >= |t.rows| then ScanFrom(t, text, c + 1, 0)
    else if CellInText(t, text, c, j) && Found(BalanceLookup(t, t.rows[j][c])) then BalanceLookup(t, t.rows[j][c])
    else ScanFrom(t, text, c, j + 1)
  }

  /** What `query(text)` answers, given the table when it was loaded and whether
      the question-answering chain was built. */
  function QueryReply(text: string, table: Option<Frame>, chainLoaded: bool): Reply
  {
    var id := BalanceQueryId(text);
    if id.Some? && id.value != [] && table.Some? then
      var res := BalanceLookup(table.value, id.value);
      BalanceReply(if Found(res) then res.value else NotFound)
    else if table.Some? && ScanFrom(table.value, text, 0, 0).Some? then
      BalanceReply(ScanFrom(table.value, text, 0, 0).value)
    else if MentionsAny(LowerStr(text), KbTerms) && chainLoaded then KbReply(text)
    else LlmReply(LlmPrompt(text))
  }

  /** The nested loops over the identifier columns and their values. */
  method ScanTable(t: Frame, text: string) returns (res: Option<string>)
    ensures res == ScanFrom(t, text, 0, 0)
  {
    if KeyedColumn(t.columns, IdKeys, 0).None? {
      ScanSkipsColumns(t, text, 0);
      return None;
    }
    for c := 0 to |t.columns|
      invariant ScanFrom(t, text, c, 0) == ScanFrom(t, text, 0, 0)
    {
      if !IsIdColumn(t, c) {
        continue;
      }
      var found := ScanColumn(t, text, c);
      if found.Some? {
        return found;
      }
    }
    return None;
  }

  /** The inner loop over the values of one identifier column: an answer, or
      the scan goes on with the next column. */
  method ScanColumn(t: Frame, text: string, c: nat) returns (found: Option<string>)
    requires c < |t.columns| && IsIdColumn(t, c)
    ensures ScanFrom(t, text, c, 0) == if found.Some? then found else ScanFrom(t, text, c + 1, 0)
  {
    for j := 0 to |t.rows|
      invariant ScanFrom(t, text, c, j) == ScanFrom(t, text, c, 0)
    {
      ScanStep(t, text, c, j);
      var val := t.rows[j][c];
      if val != [] && Contains(text, val) {
        found := FindBalance(t, val);
        if Found(found) {
          return;
        }
      }
    }
    return None;
  }

  lemma ScanStep(t: Frame, text: string, c: nat, j: nat)
    requires c < |t.columns| && IsIdColumn(t, c) && j < |t.rows|
    ensures ScanFrom(t, text, c, j) ==
      if CellInText(t, text, c, j) && Found(BalanceLookup(t, t.rows[j][c])) then BalanceLookup(t, t.rows[j][c])
      else ScanFrom(t, text, c, j + 1)
  {
  }

  /** The body of `query`. `table` is `BALANCES_DF`, which only ever holds
      None or a frame `load_balances` returned at startup, so its column names
      are normalized (`Tables.LoadBalances`). */
  method Query(text: string, table: Option<Frame>, chainLoaded: bool) returns (r: Reply)
    requires table.Some? ==> Normalized(table.value)
    ensures r == QueryReply(text, table, chainLoaded)
  {
    var balId := BalanceQueryId(text);
    if balId.Some? && balId.value != [] && table.Some? {
      var res := FindBalance(table.value, balId.value);
      if Found(res) {
        return BalanceReply(res.value);
      }
      return BalanceReply(NotFound);
    }
    if table.Some? {
      var res := ScanTable(table.value, text);
      if res.Some? {
        return BalanceReply(res.value);
      }
    }
    var kb := IsKbQuery(text);
    if kb && chainLoaded {
      return KbReply(text);
    }
    return LlmReply(LlmPrompt(text));
  }

  // ---------------------------------------------------------------------------
  // The scan

  /** With no identifier column from `c` on, the scan finds nothing. */
  lemma {:induction false} ScanSkipsColumns(t: Frame, text: string, c: nat)
    requires forall c' :: c <= c' < |t.columns| ==> !MentionsAny(t.columns[c'], IdKeys)
    ensures ScanFrom(t, text, c, 0) == None
    decreases |t.columns| - c
  {
    if c < |t.columns| {
      ScanSkipsColumns(t, text, c + 1);
    }
  }

  /** Cell `(c', j')` comes before cell `(c, j)` in the scan order. */
  predicate Before(c': nat, j': nat, c: nat, j: nat)
  {
    c' < c || (c' == c && j' < j)
  }

  /** No identifier cell from `(c, j)` on, in scan order, occurs in the text. */
  ghost predicate NoHitFrom(t: Frame, text: string, c: nat, j: nat)
  {
    forall c', j' :: c <= c' < |t.columns| && 0 <= j' < |t.rows| && !Before(c', j', c, j) ==> !CellInText(t, text, c', j')
  }

  /** Cell `(c', j')` is the first identifier cell from `(c, j)` on that occurs in the text. */
  ghost predicate FirstHitFrom(t: Frame, text: string, c: nat, j: nat, c': nat, j': nat)
  {
    && c <= c' < |t.columns| && j' < |t.rows| && !Before(c', j', c, j)
    && CellInText(t, text, c', j')
    && forall c'', j'' :: c <= c'' < |t.columns| && 0 <= j'' < |t.rows| && !Before(c'', j'', c, j) && Before(c'', j'', c', j')
         ==> !CellInText(t, text, c'', j'')
  }

  /** The first identifier cell, in scan order from `(c, j)` on, that occurs in the text. */
  function FirstCell(t: Frame, text: string, c: nat, j: nat): (r: Option<(nat, nat)>)
    ensures r.Some? ==> c <= r.value.0 < |t.columns| && r.value.1 < |t.rows|
    decreases |t.columns| - c, |t.rows| - j
  {
    if c >= |t.columns| then None
    else if !IsIdColumn(t, c) || j >= |t.rows| then FirstCell(t, text, c + 1, 0)
    else if CellInText(t, text, c, j) then Some((c, j))
    else FirstCell(t, text, c, j + 1)
  }

  /** `FirstCell` finds nothing exactly when no cell is hit, and otherwise the first one. */
  lemma {:induction false} FirstCellFirst(t: Frame, text: string, c: nat, j: nat)
    requires j <= |t.rows|
    ensures FirstCell(t, text, c, j).None? <==> NoHitFrom(t, text, c, j)
    ensures FirstCell(t, text, c, j).Some? ==>
      FirstHitFrom(t, text, c, j, FirstCell(t, text, c, j).value.0, FirstCell(t, text, c, j).value.1)
    decreases |t.columns| - c, |t.rows| - j
  {
    if c >= |t.columns| {
    } else if !IsIdColumn(t, c) || j >= |t.rows| {
      FirstCellFirst(t, text, c + 1, 0);
      assert forall j' :: 0 <= j' < |t.rows| && !Before(c, j', c, j) ==> !CellInText(t, text, c, j');
    } else if CellInText(t, text, c, j) {
    } else {
      FirstCellFirst(t, text, c, j + 1);
    }
  }

  /** Since every identifier cell finds itself, the scan answers for the first cell
      hit and does not go past it. */
  lemma {:induction false} ScanFromCell(t: Frame, text: string, c: nat, j: nat)
    requires j <= |t.rows|
    ensures ScanFrom(t, text, c, j) ==
      match FirstCell(t, text, c, j)
      case None => None
      case Some((hc, hj)) => BalanceLookup(t, t.rows[hj][hc])
    decreases |t.columns| - c, |t.rows| - j
  {
    if c >= |t.columns| {
    } else if !IsIdColumn(t, c) || j >= |t.rows| {
      ScanFromCell(t, text, c + 1, 0);
    } else if CellInText(t, text, c, j) {
      CellAlwaysFound(t, c, j);
      BalanceLookupNonEmpty(t, t.rows[j][c]);
    } else {
      ScanFromCell(t, text, c, j + 1);
    }
  }

  /** The whole scan: some identifier cell of the table occurs in the text exactly
      when the scan answers, and then it answers for the first such cell. */
  lemma ScanFirst(t: Frame, text: string)
    ensures ScanFrom(t, text, 0, 0).None? <==>
      forall c, j :: 0 <= c < |t.columns| && 0 <= j < |t.rows| ==> !CellInText(t, text, c, j)
    ensures ScanFrom(t, text, 0, 0).Some? ==>
      exists c, j ::
        && 0 <= c < |t.columns| && 0 <= j < |t.rows| && CellInText(t, text, c, j)
        && (forall c', j' :: 0 <= c' < |t.columns| && 0 <= j' < |t.rows| && Before(c', j', c, j) ==> !CellInText(t, text, c', j'))
        && ScanFrom(t, text, 0, 0) == BalanceLookup(t, t.rows[j][c])
  {
    FirstCellFirst(t, text, 0, 0);
    ScanFromCell(t, text, 0, 0);
    assert forall c': nat, j': nat :: !Before(c', j', 0, 0);
    if FirstCell(t, text, 0, 0).Some? {
      var h := FirstCell(t, text, 0, 0).value;
      assert FirstHitFrom(t, text, 0, 0, h.0, h.1);
      CellAlwaysFound(t, h.0, h.1);
      assert ScanFrom(t, text, 0, 0) == BalanceLookup(t, t.rows[h.1][h.0]);
      assert forall c', j' :: 0 <= c' < |t.columns| && 0 <= j' < |t.rows| && Before(c', j', h.0, h.1) ==>
        !Before(c', j', 0, 0) && !CellInText(t, text, c', j');
    }
  }

  // ---------------------------------------------------------------------------
  // The decision order

  /** An extracted identifier with a loaded table always gets a balance answer,
      found or not found, and the later branches are never reached. */
  lemma BalanceFirst(text: string, table: Option<Frame>, chainLoaded: bool)
    requires BalanceQueryId(text).Some? && table.Some?
    ensures var r := QueryReply(text, table, chainLoaded);
      && Source(r) == "balance"
      && (r.answer == NotFound <==> BalanceLookup(table.value, BalanceQueryId(text).value).None?)
      && (BalanceLookup(table.value, BalanceQueryId(text).value).Some? ==>
            r.answer == BalanceLookup(table.value, BalanceQueryId(text).value).value)
  {
    BalanceQueryNonEmpty(text);
    var id := BalanceQueryId(text).value;
    var res := BalanceLookup(table.value, id);
    if res.Some? {
      var h := FirstIdHit(table.value, id, 0).value;
      FoundNotNotFound(table.value.columns[h.0], BalanceCell(table.value, h.1));
    }
  }

  /** A found answer is never the not-found message. */
  lemma FoundNotNotFound(col: string, bal: string)
    ensures FoundMessage(col, bal) != NotFound
  {
    assert FoundMessage(col, bal)[0] == 'I' && NotFound[0] == 'I';
    assert FoundMessage(col, bal)[1] == 'D' && NotFound[1] == 'D';
    assert FoundMessage(col, bal)[3] == 'e' && NotFound[3] == 'n';
  }

  /** Without an extracted identifier, an identifier of the table that occurs in
      the text gives a balance answer ahead of the knowledge base and the model. */
  lemma ScanSecond(text: string, t: Frame, chainLoaded: bool, c: nat, j: nat)
    requires BalanceQueryId(text).None?
    requires c < |t.columns| && j < |t.rows| && CellInText(t, text, c, j)
    ensures QueryReply(text, Some(t), chainLoaded).BalanceReply?
  {
    ScanFirst(t, text);
  }

  /** When no balance answer applies (no table is loaded, or the text has
      neither an extractable identifier nor a table identifier in it), the chain
      answers exactly when the text mentions a knowledge-base term and the chain
      is loaded; the model answers otherwise, with the text inside its prompt. */
  lemma KbThenLlm(text: string, table: Option<Frame>, chainLoaded: bool)
    requires table.None? || (BalanceQueryId(text).None? &&
      forall c, j :: 0 <= c < |table.value.columns| && 0 <= j < |table.value.rows| ==>
        !CellInText(table.value, text, c, j))
    ensures var r := QueryReply(text, table, chainLoaded);
      && (r.KbReply? <==> MentionsAny(LowerStr(text), KbTerms) && chainLoaded)
      && (r.KbReply? ==> r.question == text)
      && (!r.KbReply? ==> r.LlmReply? && Contains(r.prompt, text))
  {
    if table.Some? {
      ScanFirst(table.value, text);
    }
  }
}
