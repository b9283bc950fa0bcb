/**
 * The three helpers that langchain_groq_app/server.py and langchain_groq_app/app.py
 * both define, with the same text: `find_balance` (look an identifier up in the
 * balances table), `is_balance_query` (decide whether a message asks for a
 * balance and extract the identifier it names) and `is_kb_query` (decide
 * whether a message is about the knowledge base).
 */
module Classifier {
  import opened Common
  import opened Text
  import opened Scan
  import opened Tables

  // ---------------------------------------------------------------------------
  // find_balance

  const IdKeys: seq<string> := ["id", "cedula", "dni", "document"]
  const BalanceKeys: seq<string> := ["balance", "saldo", "amount", "monto"]
  const BalancePlaceholder: string := "(saldo no disponible)"

  function FoundMessage(col: string, bal: string): string
  {
    "ID encontrado en columna '" + col + "'. Saldo: " + bal
  }

  /** Column `c` identifies records: its name contains `id`, `cedula`, `dni` or `document`. */
  predicate IsIdColumn(t: Frame, c: nat)
    requires c < |t.columns|
  {
    MentionsAny(t.columns[c], IdKeys)
  }

  /** Some row of column `c` matches `id` after trimming. */
  ghost predicate ColumnHas(t: Frame, c: nat, id: string)
    requires c < |t.columns|
  {
    exists j :: 0 <= j < |t.rows| && CellMatches(t, j, c, id)
  }

  /** The first identifier column, from `from` on, in which some row matches,
      with the first matching row of that column. */
  function FirstIdHit(t: Frame, id: string, from: nat): (r: Option<(nat, nat)>)
    ensures r.Some? ==>
      && from <= r.value.0 < |t.columns| && IsIdColumn(t, r.value.0)
      && IsFirstMatch(t, r.value.0, r.value.1, id)
    ensures r.Some? ==> forall c :: from <= c < r.value.0 && IsIdColumn(t, c) ==> !ColumnHas(t, c, id)
    ensures r.None? ==> forall c :: from <= c < |t.columns| && IsIdColumn(t, c) ==> !ColumnHas(t, c, id)
    decreases |t.columns| - from
  {
    if from >= |t.columns| then None
    else if IsIdColumn(t, from) && FirstRow(t, from, id, 0).Some? then
      var r := FirstRow(t, from, id, 0).value;
      assert IsFirstMatch(t, from, r, id);
      Some((from, r))
    else
      assert IsIdColumn(t, from) ==> !ColumnHas(t, from, id);
      FirstIdHit(t, id, from + 1)
  }

  /** `match.iloc[0][bal_cols[0]] if bal_cols else "(saldo no disponible)"` */
  function BalanceCell(t: Frame, r: nat): string
    requires r < |t.rows|
  {
    match KeyedColumn(t.columns, BalanceKeys, 0)
    case None => BalancePlaceholder
    case Some(b) => t.rows[r][b]
  }

  /** What `find_balance(df, id)` returns. */
  function BalanceLookup(t: Frame, id: string): Option<string>
  {
    match FirstIdHit(t, id, 0)
    case None => None
    case Some((c, r)) => Some(FoundMessage(t.columns[c], BalanceCell(t, r)))
  }

  /** The early-return loop of `find_balance`. */
  method FindBalance(t: Frame, id: string) returns (res: Option<string>)
    ensures res == BalanceLookup(t, id)
  {
    if KeyedColumn(t.columns, IdKeys, 0).None? {
      return None;
    }
    for c := 0 to |t.columns|
      invariant FirstIdHit(t, id, c) == FirstIdHit(t, id, 0)
    {
      if !IsIdColumn(t, c) {
        continue;
      }
      var row := FirstRow(t, c, id, 0);
      if row.Some? {
        var bal := BalanceCell(t, row.value);
        return Some(FoundMessage(t.columns[c], bal));
      }
    }
    return None;
  }

  /** `find_balance` finds something exactly when some identifier column has a
      row whose trimmed value equals the trimmed key; in particular it returns
      None when no column name looks like an identifier. */
  lemma BalanceLookupIff(t: Frame, id: string)
    ensures BalanceLookup(t, id).Some? <==>
      exists c, j :: 0 <= c < |t.columns| && IsIdColumn(t, c) && 0 <= j < |t.rows| && CellMatches(t, j, c, id)
    ensures (forall c :: 0 <= c < |t.columns| ==> !IsIdColumn(t, c)) ==> BalanceLookup(t, id).None?
  {
    var h := FirstIdHit(t, id, 0);
    if h.Some? {
      assert CellMatches(t, h.value.1, h.value.0, id);
    }
    forall c, j | 0 <= c < |t.columns| && IsIdColumn(t, c) && 0 <= j < |t.rows| && CellMatches(t, j, c, id)
      ensures h.Some?
    {
      assert ColumnHas(t, c, id);
    }
  }

  /** A found answer names the first identifier column, in column order, that has a
      matching row, and the balance of that column's first matching row: from the
      first column whose name suggests a balance, or the placeholder. */
  lemma BalanceLookupFirst(t: Frame, id: string)
    requires BalanceLookup(t, id).Some?
    ensures exists c, r ::
      && 0 <= c < |t.columns| && IsIdColumn(t, c) && IsFirstMatch(t, c, r, id)
      && (forall c' :: 0 <= c' < c && IsIdColumn(t, c') ==> !ColumnHas(t, c', id))
      && BalanceLookup(t, id).value == FoundMessage(t.columns[c], BalanceCell(t, r))
    ensures forall r :: 0 <= r < |t.rows| ==>
      || (KeyedColumn(t.columns, BalanceKeys, 0).None? && BalanceCell(t, r) == BalancePlaceholder)
      || (exists b :: 0 <= b < |t.columns| && MentionsAny(t.columns[b], BalanceKeys)
            && (forall b' :: 0 <= b' < b ==> !MentionsAny(t.columns[b'], BalanceKeys))
            && BalanceCell(t, r) == t.rows[r][b])
  {
    var h := FirstIdHit(t, id, 0).value;
    assert IsFirstMatch(t, h.0, h.1, id);
    forall r | 0 <= r < |t.rows| ensures
      || (KeyedColumn(t.columns, BalanceKeys, 0).None? && BalanceCell(t, r) == BalancePlaceholder)
      || (exists b :: 0 <= b < |t.columns| && MentionsAny(t.columns[b], BalanceKeys)
            && (forall b' :: 0 <= b' < b ==> !MentionsAny(t.columns[b'], BalanceKeys))
            && BalanceCell(t, r) == t.rows[r][b])
    {
      var k := KeyedColumn(t.columns, BalanceKeys, 0);
      if k.Some? {
        assert BalanceCell(t, r) == t.rows[r][k.value];
      }
    }
  }

  /** A cell of an identifier column always finds a balance answer when looked up. */
  lemma CellAlwaysFound(t: Frame, c: nat, j: nat)
    requires c < |t.columns| && j < |t.rows| && IsIdColumn(t, c)
    ensures BalanceLookup(t, t.rows[j][c]).Some?
  {
    BalanceLookupIff(t, t.rows[j][c]);
    assert CellMatches(t, j, c, t.rows[j][c]);
  }

  /** `if res:` on the result of `find_balance`: found and not empty. */
  predicate Found(res: Option<string>)
  {
    res.Some? && res.value != []
  }

  /** A found answer is never empty, so `if res` holds exactly when one was found. */
  lemma BalanceLookupNonEmpty(t: Frame, id: string)
    requires BalanceLookup(t, id).Some?
    ensures BalanceLookup(t, id).value != []
  {
    var h := FirstIdHit(t, id, 0).value;
    assert BalanceLookup(t, id).value == FoundMessage(t.columns[h.0], BalanceCell(t, h.1));
  }

  /** After `load_balances`, column `c` is an identifier column exactly when its
      name as read, stripped and lower-cased, contains one of the keys. */
  lemma LoadedIdColumn(csv: Frame, c: nat)
    requires c < |csv.columns|
    ensures var df := LoadBalances(Some(csv)).value;
      && c < |df.columns|
      && (IsIdColumn(df, c) <==> MentionsAny(LowerStr(Strip(csv.columns[c])), IdKeys))
  {
  }

  /** A header written ` ID_Cedula` in the file. */
  const SampleHeader: string := " ID_Cedula"

  /** Loading turns that header into `id_cedula`, an identifier column. */
  lemma SampleHeaderLoaded()
    ensures var df := LoadBalances(Some(Table([SampleHeader], []))).value;
      df.columns == ["id_cedula"] && IsIdColumn(df, 0)
  {
    var h := SampleHeader;
    assert TrimLeft(h) == TrimLeft(h[1..]) == h[1..];
    assert TrimRight(h[1..]) == h[1..];
    assert Strip(h) == "ID_Cedula";
    var l := LowerStr("ID_Cedula");
    assert l == "id_cedula";
    assert OccursAt(l, 0, IdKeys[0]);
  }

  // ---------------------------------------------------------------------------
  // is_balance_query: the trigger \bsaldo\b|\bbalance\b|saldo de la|saldo para|consultar saldo

  /** The trigger alternatives at position `i`, ignoring case, tried in order. */
  function TriggerAt(s: string, i: nat): (r: Option<nat>)
    ensures r.Some? ==> i < r.value <= |s|
  {
    var l := LowerStr(s);
    if i > |s| then None
    else if Boundary(s, i) && OccursAt(l, i, "saldo") && Boundary(s, i + 5) then Some(i + 5)
    else if Boundary(s, i) && OccursAt(l, i, "balance") && Boundary(s, i + 7) then Some(i + 7)
    else if OccursAt(l, i, "saldo de la") then Some(i + 11)
    else if OccursAt(l, i, "saldo para") then Some(i + 10)
    else if OccursAt(l, i, "consultar saldo") then Some(i + 15)
    else None
  }

  predicate Triggered(s: string)
  {
    Search(s, TriggerAt, 0).Some?
  }

  // the digits (\d{6,12})

  /** Six to twelve digits at `i`, as many as there are (greedy). */
  function DigitsAt(s: string, i: nat): (r: Option<nat>)
    ensures r.Some? ==> i + 6 <= r.value <= |s|
  {
    var n := DigitRun(s, i);
    if i <= |s| && n >= 6 then Some(i + Min(n, 12)) else None
  }

  // the keyword and token \b(?:cedula|cédula|dni|id)[:\s]*([A-Za-z0-9\-]+)

  const IdWords: seq<string> := ["cedula", "c\U{E9}dula", "dni", "id"]

  /** The end of the first keyword that occurs at `i` in the lower-cased text. */
  function IdWordAt(l: string, i: nat): (r: Option<nat>)
    ensures r.Some? ==> exists w :: 0 <= w < |IdWords| && OccursAt(l, i, IdWords[w]) && r.value == i + |IdWords[w]|
    ensures r.None? ==> forall w :: 0 <= w < |IdWords| ==> !OccursAt(l, i, IdWords[w])
  {
    if OccursAt(l, i, IdWords[0]) then Some(i + 6)
    else if OccursAt(l, i, IdWords[1]) then Some(i + 6)
    else if OccursAt(l, i, IdWords[2]) then Some(i + 3)
    else if OccursAt(l, i, IdWords[3]) then Some(i + 2)
    else None
  }

  /** At most one keyword occurs at any position, so trying them in another order
      (or backtracking into a later alternative) cannot change the match. */
  lemma IdWordsExclusive(l: string, i: nat, w: nat, w': nat)
    requires w < |IdWords| && w' < |IdWords|
    requires OccursAt(l, i, IdWords[w]) && OccursAt(l, i, IdWords[w'])
    ensures w == w'
  {
    assert l[i] == l[i..i + |IdWords[w]|][0] == IdWords[w][0];
    assert l[i] == l[i..i + |IdWords[w']|][0] == IdWords[w'][0];
    assert l[i + 1] == l[i..i + |IdWords[w]|][1] == IdWords[w][1];
    assert l[i + 1] == l[i..i + |IdWords[w']|][1] == IdWords[w'][1];
  }

  /** `[:\s]` */
  predicate IsSeparator(c: char)
  {
    c == ':' || IsSpace(c)
  }

  /** `[A-Za-z0-9\-]` */
  predicate IsTokenChar(c: char)
  {
    IsAsciiLetter(c) || IsDigit(c) || c == '-'
  }

  /** `[:\s]*`, greedy: the first position from `k` on that is not a separator. */
  function SkipSeparators(s: string, k: nat): (e: nat)
    requires k <= |s|
    ensures k <= e <= |s|
    ensures forall x :: k <= x < e ==> IsSeparator(s[x])
    ensures e < |s| ==> !IsSeparator(s[e])
    decreases |s| - k
  {
    if k < |s| && IsSeparator(s[k]) then SkipSeparators(s, k + 1) else k
  }

  /** `[A-Za-z0-9\-]+`, greedy: the end of the token starting at `k`. */
  function TokenEnd(s: string, k: nat): (e: nat)
    requires k <= |s|
    ensures k <= e <= |s|
    ensures forall x :: k <= x < e ==> IsTokenChar(s[x])
    ensures e < |s| ==> !IsTokenChar(s[e])
    decreases |s| - k
  {
    if k < |s| && IsTokenChar(s[k]) then TokenEnd(s, k + 1) else k
  }

  /** Where the captured token starts when a keyword occurs at `i`. */
  function TokenStart(s: string, i: nat): (k: nat)
    ensures IdWordAt(LowerStr(s), i).Some? && IdWordAt(LowerStr(s), i).value <= |s| ==>
      IdWordAt(LowerStr(s), i).value <= k <= |s|
  {
    var w := IdWordAt(LowerStr(s), i);
    if w.Some? && w.value <= |s| then SkipSeparators(s, w.value) else 0
  }

  /** The whole keyword pattern at `i`: the end of the captured token. Since no
      separator is a token character, backtracking the separators cannot help. */
  function KeywordAt(s: string, i: nat): (r: Option<nat>)
    ensures r.Some? ==> TokenStart(s, i) < r.value <= |s|
  {
    if i <= |s| && Boundary(s, i) && IdWordAt(LowerStr(s), i).Some? then
      var k := TokenStart(s, i);
      var e := TokenEnd(s, k);
      if e > k then Some(e) else None
    else None
  }

  /** What `is_balance_query(text)` returns. */
  function BalanceQueryId(text: string): Option<string>
  {
    if !Triggered(text) then None
    else
      match Search(text, DigitsAt, 0)
      case Some(sp) => Some(text[sp.start..sp.end])
      case None =>
        match Search(text, KeywordAt, 0)
        case Some(sp) => Some(text[TokenStart(text, sp.start)..sp.end])
        case None => None
  }

  /** The leftmost run of at least six digits, when there is one, starts where a
      run of digits starts, and the match keeps at most twelve of its digits. */
  lemma DigitSearch(text: string)
    ensures Search(text, DigitsAt, 0).None? <==> forall i :: 0 <= i <= |text| ==> DigitRun(text, i) < 6
    ensures Search(text, DigitsAt, 0).Some? ==>
      var i := Search(text, DigitsAt, 0).value.start;
      && DigitRun(text, i) >= 6
      && (forall i' :: 0 <= i' < i ==> DigitRun(text, i') < 6)
      && (i == 0 || !IsDigit(text[i - 1]))
      && Search(text, DigitsAt, 0).value.end == i + Min(DigitRun(text, i), 12)
  {
    var r := Search(text, DigitsAt, 0);
    forall i | 0 <= i <= |text| && DigitRun(text, i) >= 6 ensures r.Some? {
      assert DigitsAt(text, i).Some?;
    }
    if r.Some? {
      var i := r.value.start;
      assert DigitsAt(text, i).Some? && DigitRun(text, i) >= 6;
      forall i' | 0 <= i' < i ensures DigitRun(text, i') < 6 {
        assert DigitsAt(text, i').None?;
      }
      if i > 0 {
        assert DigitRun(text, i - 1) < 6;
        DigitRunStep(text, i - 1);
      }
    } else {
      forall i | 0 <= i <= |text| ensures DigitRun(text, i) < 6 {
        assert DigitsAt(text, i).None?;
      }
    }
  }

  /** Without the trigger there is no identifier; with it, the leftmost run of at
      least six digits wins over any keyword, cut at twelve digits. */
  lemma BalanceQueryDigits(text: string)
    ensures !Triggered(text) ==> BalanceQueryId(text).None?
    ensures Triggered(text) && Search(text, DigitsAt, 0).Some? ==>
      var sp := Search(text, DigitsAt, 0).value;
      BalanceQueryId(text) == Some(text[sp.start..sp.start + Min(DigitRun(text, sp.start), 12)])
  {
    DigitSearch(text);
  }

  /** The keyword search: the leftmost position where a keyword is followed,
      after separators only, by a non-empty token. */
  lemma KeywordSearch(text: string)
    ensures Search(text, KeywordAt, 0).Some? ==>
      var i := Search(text, KeywordAt, 0).value.start;
      && (forall i' :: 0 <= i' < i ==> KeywordAt(text, i').None?)
      && exists w ::
        && 0 <= w < |IdWords| && i <= |text| && Boundary(text, i)
        && OccursAt(LowerStr(text), i, IdWords[w])
        && i + |IdWords[w]| <= |text|
        && TokenStart(text, i) == SkipSeparators(text, i + |IdWords[w]|)
        && TokenStart(text, i) < TokenEnd(text, TokenStart(text, i)) == Search(text, KeywordAt, 0).value.end
  {
    var r := Search(text, KeywordAt, 0);
    if r.Some? {
      var i := r.value.start;
      var w :| 0 <= w < |IdWords| && OccursAt(LowerStr(text), i, IdWords[w])
        && IdWordAt(LowerStr(text), i).value == i + |IdWords[w]|;
      assert i + |IdWords[w]| <= |text|;
    }
  }

  /** Failing six digits (see `DigitSearch`), the token after the leftmost keyword that is followed
      by one is returned; there is none when no keyword is followed by a token. */
  lemma BalanceQueryKeyword(text: string)
    requires Triggered(text)
    requires Search(text, DigitsAt, 0).None?
    ensures BalanceQueryId(text).None? <==> forall i :: 0 <= i <= |text| ==> KeywordAt(text, i).None?
    ensures BalanceQueryId(text).Some? ==>
      var sp := Search(text, KeywordAt, 0).value;
      BalanceQueryId(text) == Some(text[TokenStart(text, sp.start)..sp.end])
  {
    var r := Search(text, KeywordAt, 0);
    BalanceQueryFallback(text, r);
    if r.Some? {
      SearchSomeMatches(text, KeywordAt, r.value);
    } else {
      SearchNoneEverywhere(text, KeywordAt);
    }
  }

  lemma BalanceQueryFallback(text: string, r: Option<Span>)
    requires Triggered(text)
    requires Search(text, DigitsAt, 0).None?
    requires r == Search(text, KeywordAt, 0)
    ensures r.None? ==> BalanceQueryId(text).None?
    ensures r.Some? ==>
      && TokenStart(text, r.value.start) <= r.value.end <= |text|
      && BalanceQueryId(text) == Some(text[TokenStart(text, r.value.start)..r.value.end])
  {
  }

  /** The balance question of the server's smoke test, in three pieces: the
      trigger, the keyword with the prefix, and the digits. */
  const SampleTrigger: string := "Consultar saldo"
  const SampleMiddle: string := " cedula V-"
  const SampleDigitsText: string := "12345678"
  const SampleQuery: string := SampleTrigger + SampleMiddle + SampleDigitsText

  lemma SampleTriggerLowered()
    ensures LowerStr(SampleTrigger) == "consultar saldo"
  {
  }

  lemma SampleTriggered()
    ensures Search(SampleQuery, TriggerAt, 0) == Some(Span(0, 15))
  {
    var l := LowerStr(SampleQuery);
    LowerPrefix(SampleTrigger, SampleMiddle + SampleDigitsText);
    assert SampleQuery == SampleTrigger + (SampleMiddle + SampleDigitsText);
    SampleTriggerLowered();
    ConsultarTriggers(SampleQuery, 0);
  }

  /** Where the lowered text reads "consultar saldo", the last alternative matches:
      none of the others starts with a `c`. */
  lemma ConsultarTriggers(s: string, i: nat)
    requires i + 15 <= |s| && LowerStr(s)[i..i + 15] == "consultar saldo"
    ensures TriggerAt(s, i) == Some(i + 15)
  {
    var l := LowerStr(s);
    assert l[i] == l[i..i + 15][0] == 'c';
    assert !OccursAt(l, i, "saldo") by { assert i + 5 <= |l| ==> l[i..i + 5][0] == l[i]; }
    assert !OccursAt(l, i, "balance") by { assert i + 7 <= |l| ==> l[i..i + 7][0] == l[i]; }
    assert !OccursAt(l, i, "saldo de la") by { assert i + 11 <= |l| ==> l[i..i + 11][0] == l[i]; }
    assert !OccursAt(l, i, "saldo para") by { assert i + 10 <= |l| ==> l[i..i + 10][0] == l[i]; }
    assert OccursAt(l, i, "consultar saldo");
  }

  /** No digit occurs before position 25. */
  lemma SampleNoDigitBefore(i: nat)
    requires i < 25
    ensures !IsDigit(SampleQuery[i])
  {
    var head := SampleTrigger + SampleMiddle;
    assert SampleQuery == head + SampleDigitsText;
    assert SampleQuery[i] == head[i];
  }

  lemma SampleRun()
    ensures DigitRun(SampleQuery, 25) == 8
  {
    var head := SampleTrigger + SampleMiddle;
    assert SampleQuery == head + SampleDigitsText;
    var k := 33;
    while k > 25
      invariant 25 <= k <= 33 && DigitRun(SampleQuery, k) == 33 - k
    {
      assert SampleQuery[k - 1] == SampleDigitsText[k - 1 - 25];
      DigitRunStep(SampleQuery, k - 1);
      k := k - 1;
    }
  }

  lemma SampleDigits()
    ensures Search(SampleQuery, DigitsAt, 0) == Some(Span(25, 33))
  {
    forall i | 0 <= i < 25 ensures DigitsAt(SampleQuery, i).None? {
      SampleNoDigitBefore(i);
    }
    SampleRun();
    SearchFinds(SampleQuery, DigitsAt, 0, 25);
  }

  lemma SampleSlice()
    ensures SampleQuery[25..33] == "12345678"
  {
    assert SampleQuery == (SampleTrigger + SampleMiddle) + SampleDigitsText;
  }

  /** The sample question yields the eight digits, without the `V-` prefix. */
  lemma SampleQueryId()
    ensures BalanceQueryId(SampleQuery) == Some("12345678")
  {
    SampleTriggered();
    SampleDigits();
    SampleSlice();
  }

  /** An extracted identifier is never empty, so `if bal_id` holds exactly when one was found. */
  lemma BalanceQueryNonEmpty(text: string)
    ensures BalanceQueryId(text).Some? ==> BalanceQueryId(text).value != []
  {
  }

  // ---------------------------------------------------------------------------
  // The prompt both front ends hand to the language model

  function LlmPrompt(text: string): (p: string)
    ensures Contains(p, text)
  {
    var head := "Responde brevemente en espa\U{F1}ol. Pregunta: ";
    var p := head + text + "\nRespuesta:";
    assert OccursAt(p, |head|, text) by {
      assert p[|head|..|head| + |text|] == text;
    }
    p
  }

  // ---------------------------------------------------------------------------
  // is_kb_query

  const KbTerms: seq<string> := [
    "abrir cuenta", "apertura de cuenta", "transferencia", "hacer una transferencia",
    "deposito", "dep\U{F3}sito", "tarjeta", "cheque", "requisitos", "documentos"
  ]

  /** The loop of `is_kb_query`, returning at the first term found. */
  method IsKbQuery(text: string) returns (b: bool)
    ensures b <==> MentionsAny(LowerStr(text), KbTerms)
  {
    for k := 0 to |KbTerms|
      invariant forall k' :: 0 <= k' < k ==> !Contains(LowerStr(text), KbTerms[k'])
    {
      if Contains(LowerStr(text), KbTerms[k]) {
        return true;
      }
    }
    return false;
  }
}
