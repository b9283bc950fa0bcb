/**
 * `route_and_respond` of solution_micaela/query_agent.py and the helpers it
 * calls: a question that contains an identifier of the form `\b[Vv]-?\d{6,8}\b`
 * is answered from the balances table; otherwise a question mentioning one of
 * the account keywords is answered with the passages the similarity search
 * returns; any other question gets a fixed general reply.
 *
 * The similarity search is not modelled: its result `I[0]` (a list of positions
 * into the stored index, `-1` for a missing neighbour) is an input.
 */
module QueryAgent {
  import opened Common
  import opened Text
  import opened Scan
  import opened Tables
  import opened IndexBuild

  // ---------------------------------------------------------------------------
  // lookup_balance

  const IdColumn: string := "ID_Cedula"
  const NameColumn: string := "Nombre"
  const BalanceColumn: string := "Balance"

  /** pandas raises `KeyError` when a column is missing. */
  datatype Failure = MissingColumn(name: string)

  /** `{'ID_Cedula': ..., 'Nombre': ..., 'Balance': ...}` of the matching row. */
  datatype BalanceRecord = BalanceRecord(id: string, name: string, balance: string)

  /** `row.iloc[0]` read as a record: the name and balance columns are looked up
      only once a row has matched. */
  function RecordAt(t: Frame, c: nat, r: nat): (res: Result<BalanceRecord, Failure>)
    requires c < |t.columns| && r < |t.rows|
    ensures res.Err? <==> !(NameColumn in t.columns && BalanceColumn in t.columns)
    ensures res.Ok? ==> res.value.id == t.rows[r][c]
    ensures res.Ok? ==> exists n, b ::
      && 0 <= n < |t.columns| && 0 <= b < |t.columns|
      && t.columns[n] == NameColumn && t.columns[b] == BalanceColumn
      && res.value.name == t.rows[r][n] && res.value.balance == t.rows[r][b]
  {
    match ColumnIndex(t.columns, NameColumn, 0)
    case None => Err(MissingColumn(NameColumn))
    case Some(n) =>
      match ColumnIndex(t.columns, BalanceColumn, 0)
      case None => Err(MissingColumn(BalanceColumn))
      case Some(b) => Ok(BalanceRecord(t.rows[r][c], t.rows[r][n], t.rows[r][b]))
  }

  /** `lookup_balance(id)`: `table` is None when the CSV file does not exist. */
  function LookupBalance(table: Option<Frame>, id: string): (res: Result<Option<BalanceRecord>, Failure>)
    ensures table.None? ==> res == Ok(None)
    ensures table.Some? && ColumnIndex(table.value.columns, IdColumn, 0).None? ==>
      res == Err(MissingColumn(IdColumn))
  {
    match table
    case None => Ok(None)
    case Some(t) =>
      match ColumnIndex(t.columns, IdColumn, 0)
      case None => Err(MissingColumn(IdColumn))
      case Some(c) =>
        match FirstRow(t, c, id, 0)
        case None => Ok(None)
        case Some(r) =>
          match RecordAt(t, c, r)
          case Err(e) => Err(e)
          case Ok(rec) => Ok(Some(rec))
  }

  /** With an `ID_Cedula` column, the lookup misses exactly when no row's trimmed
      identifier equals the trimmed key; otherwise it reads the first such row,
      in table order. */
  lemma LookupFirstRow(t: Frame, id: string)
    requires ColumnIndex(t.columns, IdColumn, 0).Some?
    ensures var c := ColumnIndex(t.columns, IdColumn, 0).value;
      && (LookupBalance(Some(t), id) == Ok(None) <==> forall j :: 0 <= j < |t.rows| ==> !CellMatches(t, j, c, id))
      && (LookupBalance(Some(t), id) != Ok(None) ==>
            exists r :: IsFirstMatch(t, c, r, id) && LookupBalance(Some(t), id) == (
              match RecordAt(t, c, r) case Err(e) => Err(e) case Ok(rec) => Ok(Some(rec))))
  {
    var c := ColumnIndex(t.columns, IdColumn, 0).value;
    var fr := FirstRow(t, c, id, 0);
    if fr.Some? {
      assert IsFirstMatch(t, c, fr.value, id);
    }
  }

  // ---------------------------------------------------------------------------
  // The identifier pattern \b[Vv]-?\d{6,8}\b

  predicate IsV(c: char)
  {
    c == 'V' || c == 'v'
  }

  /** The end of the match of `\b[Vv]-?\d{6,8}\b` at position `i`, as the
      backtracking engine finds it: the optional hyphen is taken when present,
      and the digit run must stop, at 6 to 8 digits, at a word boundary. */
  function IdMatchAt(s: string, i: nat): (r: Option<nat>)
    ensures r.Some? ==> i < r.value <= |s|
  {
    if i < |s| && IsV(s[i]) && Boundary(s, i) then
      var ds := if i + 1 < |s| && s[i + 1] == '-' then i + 2 else i + 1;
      var n := DigitRun(s, ds);
      if 6 <= n <= 8 && Boundary(s, ds + n) then Some(ds + n) else None
    else None
  }

  ghost predicate DigitsBetween(s: string, a: nat, j: nat)
  {
    a + 6 <= j <= a + 8 && j <= |s| && forall k :: a <= k < j ==> IsDigit(s[k])
  }

  /** The strings `s[i:j]` the pattern describes: a word-initial `V` or `v`, an
      optional hyphen, then 6 to 8 digits ending at a word boundary. */
  ghost predicate IdShape(s: string, i: nat, j: nat)
  {
    && i < j <= |s| && IsV(s[i]) && Boundary(s, i) && Boundary(s, j)
    && (DigitsBetween(s, i + 1, j) || (i + 1 < |s| && s[i + 1] == '-' && DigitsBetween(s, i + 2, j)))
  }

  /** The matcher yields exactly the match the pattern describes (there is at most one per position). */
  lemma IdMatchIff(s: string, i: nat, j: nat)
    ensures IdMatchAt(s, i) == Some(j) <==> IdShape(s, i, j)
  {
    if IdShape(s, i, j) {
      var ds := if i + 1 < |s| && s[i + 1] == '-' then i + 2 else i + 1;
      assert DigitsBetween(s, ds, j);
    }
  }

  /** The match text contains no space, so `.replace(' ', '')` leaves it unchanged. */
  lemma IdMatchNoSpace(s: string, i: nat, j: nat)
    requires IdShape(s, i, j)
    ensures RemoveChar(s[i..j], ' ') == s[i..j]
  {
    assert forall k :: i < k < j ==> s[k] == '-' || IsDigit(s[k]);
  }

  // ---------------------------------------------------------------------------
  // Routing

  datatype Route = IdLookup(id: string) | KbRetrieval | General

  const AgentKeywords: seq<string> := ["abrir cuenta", "transferencia", "tarjeta", "tarjetas", "cuenta", "transferir"]

  /** The decision of `route_and_respond`. */
  function RouteOf(q: string): Route
  {
    match Search(q, IdMatchAt, 0)
    case Some(sp) => IdLookup(RemoveChar(q[sp.start..sp.end], ' '))
    case None => if MentionsAny(LowerStr(q), AgentKeywords) then KbRetrieval else General
  }

  /** A question containing an identifier is always routed to the lookup, with the
      leftmost identifier, whatever keywords it contains. */
  lemma RouteIdentifier(q: string)
    ensures RouteOf(q).IdLookup? <==> exists i: nat, j: nat :: IdShape(q, i, j)
    ensures RouteOf(q).IdLookup? ==> exists i: nat, j: nat ::
      && IdShape(q, i, j) && RouteOf(q).id == q[i..j]
      && forall i': nat, j': nat :: i' < i ==> !IdShape(q, i', j')
  {
    var r := Search(q, IdMatchAt, 0);
    forall i: nat, j: nat | IdShape(q, i, j) ensures r.Some? {
      IdMatchIff(q, i, j);
    }
    if r.Some? {
      var i, j := r.value.start, r.value.end;
      IdMatchIff(q, i, j);
      IdMatchNoSpace(q, i, j);
      forall i': nat, j': nat | i' < i ensures !IdShape(q, i', j') {
        IdMatchIff(q, i', j');
      }
      assert IdShape(q, i, j) && RouteOf(q).id == q[i..j];
    }
  }

  /** The knowledge-base branch is taken exactly when there is no identifier and
      a keyword occurs in the lower-cased question. */
  lemma RouteKb(q: string)
    ensures RouteOf(q) == KbRetrieval <==>
      (forall i: nat, j: nat :: !IdShape(q, i, j)) && MentionsAny(LowerStr(q), AgentKeywords)
    ensures RouteOf(q) == General <==>
      (forall i: nat, j: nat :: !IdShape(q, i, j)) && !MentionsAny(LowerStr(q), AgentKeywords)
  {
    RouteIdentifier(q);
  }

  /** `tarjetas` and `abrir cuenta` add nothing to the keyword list: they contain
      `tarjeta` and `cuenta`. */
  lemma AgentKeywordsReduce(s: string)
    ensures MentionsAny(s, AgentKeywords) <==> MentionsAny(s, ["transferencia", "tarjeta", "cuenta", "transferir"])
  {
    var short := ["transferencia", "tarjeta", "cuenta", "transferir"];
    if MentionsAny(s, AgentKeywords) {
      var k :| 0 <= k < |AgentKeywords| && Contains(s, AgentKeywords[k]);
      if k == 0 {
        ContainsInfix(s, "abrir cuenta", 6, 12);
        assert "abrir cuenta"[6..12] == "cuenta";
        assert Contains(s, short[2]);
      } else if k == 1 {
        assert Contains(s, short[0]);
      } else if k == 2 {
        assert Contains(s, short[1]);
      } else if k == 3 {
        ContainsInfix(s, "tarjetas", 0, 7);
        assert "tarjetas"[0..7] == "tarjeta";
        assert Contains(s, short[1]);
      } else if k == 4 {
        assert Contains(s, short[2]);
      } else {
        assert Contains(s, short[3]);
      }
    }
    if MentionsAny(s, short) {
      var k :| 0 <= k < |short| && Contains(s, short[k]);
      assert Contains(s, AgentKeywords[[1, 2, 4, 5][k]]);
    }
  }

  // ---------------------------------------------------------------------------
  // retrieve_docs: filtering the search result

  /** The stored index: passage texts and their metadata, position by position. */
  datatype StoredIndex = StoredIndex(texts: seq<string>, metas: seq<ChunkMeta>)

  /** An index built by `build_index` has as many metadata entries as texts. */
  type Index = x: StoredIndex | |x.texts| == |x.metas| witness StoredIndex([], [])

  /** `{'text': texts[idx], 'meta': metas[idx]}` */
  datatype Hit = Hit(text: string, meta: ChunkMeta)

  /** The results of `retrieve_docs` for the search result `ids`. */
  function Hits(index: Index, ids: seq<int>): seq<Hit>
    decreases |ids|
  {
    if ids == [] then []
    else
      var last := ids[|ids| - 1];
      Hits(index, ids[..|ids| - 1])
        + (if 0 <= last < |index.texts| then [Hit(index.texts[last], index.metas[last])] else [])
  }

  /** The loop of `retrieve_docs`. */
  method RetrieveDocs(index: Index, ids: seq<int>) returns (results: seq<Hit>)
    ensures results == Hits(index, ids)
  {
    results := [];
    for k := 0 to |ids|
      invariant results == Hits(index, ids[..k])
    {
      assert ids[..k + 1][..k] == ids[..k];
      var idx := ids[k];
      if idx < 0 || idx >= |index.texts| {
        continue;
      }
      results := results + [Hit(index.texts[idx], index.metas[idx])];
    }
    assert ids[..|ids|] == ids;
  }

  /** Filtering works element by element: the results for `a + b` are those for
      `a` followed by those for `b`. */
  lemma {:induction false} HitsAppend(index: Index, a: seq<int>, b: seq<int>)
    ensures Hits(index, a + b) == Hits(index, a) + Hits(index, b)
    decreases |b|
  {
    if b != [] {
      var n := |b| - 1;
      assert (a + b)[..|a + b| - 1] == a + b[..n];
      HitsAppend(index, a, b[..n]);
    } else {
      assert a + b == a;
    }
  }

  /** One position is kept, with the text and metadata at that position, exactly
      when it is in range. */
  lemma HitsSingle(index: Index, i: int)
    ensures Hits(index, [i]) == if 0 <= i < |index.texts| then [Hit(index.texts[i], index.metas[i])] else []
  {
    assert [i][..0] == [];
  }

  /** At most one result per returned position, each taken from one in-range position. */
  lemma {:induction false} HitsFrom(index: Index, ids: seq<int>)
    ensures |Hits(index, ids)| <= |ids|
    ensures forall j :: 0 <= j < |Hits(index, ids)| ==> exists k ::
      0 <= k < |ids| && 0 <= ids[k] < |index.texts| && Hits(index, ids)[j] == Hit(index.texts[ids[k]], index.metas[ids[k]])
    decreases |ids|
  {
    if ids != [] {
      var pre := ids[..|ids| - 1];
      HitsFrom(index, pre);
      var hs := Hits(index, ids);
      forall j | 0 <= j < |hs| ensures exists k ::
        0 <= k < |ids| && 0 <= ids[k] < |index.texts| && hs[j] == Hit(index.texts[ids[k]], index.metas[ids[k]])
      {
        if j < |Hits(index, pre)| {
          var k :| 0 <= k < |pre| && 0 <= pre[k] < |index.texts|
            && Hits(index, pre)[j] == Hit(index.texts[pre[k]], index.metas[pre[k]]);
          assert ids[k] == pre[k];
        } else {
          assert ids[|ids| - 1] == ids[|ids| - 1];
        }
      }
    }
  }

  // ---------------------------------------------------------------------------
  // Answers

  const KbHeader: string := "He encontrado estos fragmentos relevantes de la base de conocimientos:\n\n"

  /** `f"Fuente: {source} (chunk {chunk})\n{text}\n\n"` */
  function Block(h: Hit): string
  {
    "Fuente: " + h.meta.source + " (chunk " + NatToString(h.meta.chunk) + ")\n" + h.text + "\n\n"
  }

  function Blocks(hs: seq<Hit>): string
    decreases |hs|
  {
    if hs == [] then "" else Blocks(hs[..|hs| - 1]) + Block(hs[|hs| - 1])
  }

  /** The `answer +=` loop of the knowledge-base branch. */
  method KbAnswer(docs: seq<Hit>) returns (answer: string)
    ensures answer == KbHeader + Blocks(docs)
  {
    answer := KbHeader;
    for k := 0 to |docs|
      invariant answer == KbHeader + Blocks(docs[..k])
    {
      assert docs[..k + 1][..k] == docs[..k];
      answer := answer + Block(docs[k]);
    }
    assert docs[..|docs|] == docs;
  }

  /** One block per passage, in retrieval order: the blocks of `a + b` are those
      of `a` followed by those of `b`. */
  lemma {:induction false} BlocksAppend(a: seq<Hit>, b: seq<Hit>)
    ensures Blocks(a + b) == Blocks(a) + Blocks(b)
    decreases |b|
  {
    if b != [] {
      var n := |b| - 1;
      assert (a + b)[..|a + b| - 1] == a + b[..n];
      BlocksAppend(a, b[..n]);
    } else {
      assert a + b == a;
    }
  }

  function BalanceAnswer(rec: BalanceRecord): string
  {
    "Balance para " + rec.name + " (" + rec.id + "): " + rec.balance
  }

  /** The not-found reply, with its characters exactly as the source file holds them. */
  function NotFoundAnswer(id: string): string
  {
    "No se encontr\U{221A}\U{2265} balance para el ID " + id + "."
  }

  const GeneralReply: string := "Consulta general detectada. Si desea una respuesta generada por un LLM configure `OPENAI_API_KEY` y actualice este script para usar LangChain/OpenAI."

  /** What `route_and_respond(q)` returns, or the error it raises; `ids` is the
      search result for `q` with `top_k = 4`. */
  function Respond(q: string, table: Option<Frame>, index: Index, ids: seq<int>): Result<string, Failure>
  {
    match RouteOf(q)
    case IdLookup(id) =>
      (match LookupBalance(table, id)
       case Err(e) => Err(e)
       case Ok(None) => Ok(NotFoundAnswer(id))
       case Ok(Some(rec)) => Ok(BalanceAnswer(rec)))
    case KbRetrieval => Ok(KbHeader + Blocks(Hits(index, ids)))
    case General => Ok(GeneralReply)
  }

  method RouteAndRespond(q: string, table: Option<Frame>, index: Index, ids: seq<int>)
    returns (r: Result<string, Failure>)
    ensures r == Respond(q, table, index, ids)
  {
    var route := RouteOf(q);
    if route.IdLookup? {
      var bal := LookupBalance(table, route.id);
      if bal.Err? {
        return Err(bal.error);
      }
      if bal.value.Some? {
        return Ok(BalanceAnswer(bal.value.value));
      }
      return Ok(NotFoundAnswer(route.id));
    }
    if route.KbRetrieval? {
      var docs := RetrieveDocs(index, ids);
      var answer := KbAnswer(docs);
      return Ok(answer);
    }
    return Ok(GeneralReply);
  }

  // ---------------------------------------------------------------------------
  // Properties of the answers

  /** On the identifier branch the search result plays no part: the identifier
      never falls through to retrieval. A miss yields the not-found reply, which
      quotes the identifier. */
  lemma IdentifierAnswer(q: string, table: Option<Frame>, index: Index, ids: seq<int>, ids': seq<int>)
    requires RouteOf(q).IdLookup?
    ensures Respond(q, table, index, ids) == Respond(q, table, index, ids')
    ensures LookupBalance(table, RouteOf(q).id) == Ok(None) ==>
      && Respond(q, table, index, ids) == Ok(NotFoundAnswer(RouteOf(q).id))
      && Contains(NotFoundAnswer(RouteOf(q).id), RouteOf(q).id)
  {
    var id := RouteOf(q).id;
    var pre := "No se encontr\U{221A}\U{2265} balance para el ID ";
    assert NotFoundAnswer(id)[|pre|..|pre| + |id|] == id;
    assert OccursAt(NotFoundAnswer(id), |pre|, id);
  }

  /** With no table file the identifier branch always answers not found. */
  lemma NoTableNotFound(q: string, index: Index, ids: seq<int>)
    requires RouteOf(q).IdLookup?
    ensures Respond(q, None, index, ids) == Ok(NotFoundAnswer(RouteOf(q).id))
  {
  }

  /** The knowledge-base answer is the header followed by one block per
      in-range search position, in search order; with nothing retrieved it is
      the header alone. */
  lemma KbAnswerShape(q: string, table: Option<Frame>, index: Index, ids: seq<int>)
    requires RouteOf(q) == KbRetrieval
    ensures Respond(q, table, index, ids) == Ok(KbHeader + Blocks(Hits(index, ids)))
    ensures Hits(index, ids) == [] ==> Respond(q, table, index, ids) == Ok(KbHeader)
  {
    assert KbHeader + "" == KbHeader;
  }
}
