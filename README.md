# Banking assistant: chunking, routing and lookups

This project models the deterministic text and routing layer of a small banking
assistant. The assistant comes in two parts:

- **solution_micaela** builds a passage index from knowledge-base documents and
  answers questions.
  - Indexing: `build_index.py` splits each document into paragraphs, merges them
    into chunks of at most 800 characters, and cuts long paragraphs into
    overlapping windows. It pairs every chunk with its source name and its
    number, and aborts when nothing was produced.
  - Answering: `query_agent.py` routes a question three ways:
    - a `V-12345678`-style identifier goes to a lookup in the balances table;
    - an account keyword goes to the passages the similarity search returns;
    - anything else gets a fixed general reply.
- **langchain_groq_app** has a web endpoint (`server.py`, `/query`) and a
  console loop (`app.py`). They share the same helpers:
  - `find_balance` guesses the identifier and balance columns from their names;
  - `is_balance_query` takes a trigger word, then picks six to twelve digits or
    the token after `cedula`/`dni`/`id`;
  - `is_kb_query` is a keyword test.

  The endpoint tries four branches in order: the balance branch, a scan of the
  table for any identifier that occurs in the question, the knowledge-base
  chain, and the language model. The console loop skips empty lines, stops at an
  exit word, and has no table scan.

## How the model is organised

The Dafny modules follow that structure:

- `Common`: the `Option` and `Result` types and `Min`.
- `Text`: Python's `strip`, `lower`, `split`/`join`, `in` on strings, `\b`, and
  the character classes.
- `Scan`: `re.search` as a leftmost search over a position matcher.
- `Tables`: a CSV table as seen through pandas.
- `Chunking` and `IndexBuild`: `build_index.py`.
- `QueryAgent`: `query_agent.py`.
- `Classifier`: the helpers shared by `server.py` and `app.py`.
- `Server`: `query` in `server.py`.
- `Cli`: `main_loop` in `app.py`.
- `FrontEnds`: a comparison of the two front ends.

The `Classifier` rows cite `server.py`. The same three helpers appear, with the
same text, in `app.py` at lines 37-83 (`find_balance`, `is_balance_query` and
`is_kb_query`), so one model serves both.

Loops in the source are methods with loop invariants, each proved equal to a
specification function:

- `Chunking.ChunkText` and `Chunking.AppendWindows`;
- `IndexBuild.BuildIndex` and `IndexBuild.AppendChunks`;
- `QueryAgent.RetrieveDocs` and `QueryAgent.KbAnswer`;
- `Classifier.FindBalance` and `Classifier.IsKbQuery`;
- `Server.ScanTable` and `Server.ScanColumn`;
- `Cli.MainLoop`.

`QueryAgent.RouteAndRespond`, `Server.Query` and `Cli.Answer` have no loop of
their own. They are straight-line methods that call the loop methods, and each
is proved equal to its specification function too.

The lemmas state the promised properties about those functions.

Services that cannot be modelled appear only through what they are given:

- The FAISS search result is an input list of positions.
- The question-answering chain and the language model are named by the reply
  or the action, together with the question or prompt they receive.
- An absent CSV file or QA chain is an `Option` or a flag.

Two behaviours of the code are worth stating outright:

- **Window step.** The window step is `max_len - overlap` when that is
  positive, and `max_len` otherwise (`build_index.py:51`, `Chunking.StepOf`).
- **Empty retrieval.** When retrieval keeps no passage, the answer is the header
  line alone, without a "no results" message (`query_agent.py:69-72`,
  `QueryAgent.KbAnswerShape`).

The balances table reaches the routing code the way `load_balances` leaves it:
- its column names are stripped and lower-cased (`Tables.LoadBalances`);
- the console loop loads it itself (`Cli.MainLoop`);
- the endpoint receives it as the frame stored at startup (`Server.Query`).

## Model

| member | source | states |
|---|---|---|
| Text.StripSpec | solution_micaela/build_index.py:30 | `strip()` is empty exactly when the string is all whitespace, and otherwise starts and ends with a non-whitespace character |
| Text.TrimLeftSpec | solution_micaela/build_index.py:30 | `lstrip` removes exactly the leading whitespace: the result is the longest suffix that does not start with whitespace |
| Text.TrimRightSpec | solution_micaela/build_index.py:30 | `rstrip` removes exactly the trailing whitespace: the result is the longest prefix that does not end with whitespace |
| Text.SplitJoin | solution_micaela/build_index.py:30 | joining the pieces of `text.split('\n\n')` with `'\n\n'` gives back the text, so the split loses nothing |
| Text.AllSpaceSplit | solution_micaela/build_index.py:30 | every piece of the split is blank exactly when the whole text is blank |
| Text.RemoveChar | solution_micaela/query_agent.py:56 | `replace(c, '')` leaves no `c`, is never longer than its input, and is the identity on a string without `c` |
| Scan.Search | langchain_groq_app/server.py:65 | `re.search` finds the leftmost position where the pattern matches, with the match end the matcher gives; None means no position matches |
| Scan.SearchFinds | langchain_groq_app/server.py:65 | a position where the pattern matches, with no match before it, is what the search returns |
| Text.StripLowerIdempotent | langchain_groq_app/server.py:46 | `strip().lower()` is idempotent: applying it to its own result changes nothing |
| Tables.NormalizeSpec | langchain_groq_app/server.py:46 | normalized column names are a fixed point of `strip().lower()`, and normalizing a frame whose names already are leaves it unchanged |
| Tables.LoadBalances | langchain_groq_app/server.py:41-47 | a missing file gives no table. A loaded table keeps its rows, and its names are `strip().lower()` of the names read, so they are normalized |
| Classifier.LoadedIdColumn | langchain_groq_app/server.py:46-51 | after loading, a column is an identifier column exactly when its name as read, stripped and lower-cased, contains `id`, `cedula`, `dni` or `document` |
| Classifier.SampleHeaderLoaded | langchain_groq_app/server.py:46-51 | the header ` ID_Cedula` loads as `id_cedula`, an identifier column |
| Tables.ColumnIndex | solution_micaela/query_agent.py:30 | `df['ID_Cedula']` selects the first column with that name, or none exists |
| Tables.KeyedColumn | langchain_groq_app/server.py:51 | the first column whose name contains one of the keys; None when no column name contains any |
| Tables.FirstRow | solution_micaela/query_agent.py:30-32 | the first row whose trimmed cell equals the trimmed key, and none before it matches; None when no row matches |
| Chunking.NonBlankNonEmpty | solution_micaela/build_index.py:30 | no kept paragraph is empty |
| Chunking.NonBlankEmptyIff | solution_micaela/build_index.py:30 | every part is dropped exactly when every part is blank |
| Chunking.ParagraphsNonEmpty | solution_micaela/build_index.py:30 | every paragraph of a text is non-empty |
| Chunking.ParagraphsEmptyIff | solution_micaela/build_index.py:30 | a text has no paragraphs exactly when it is empty or all whitespace |
| Chunking.StepOf | solution_micaela/build_index.py:51 | the window step is positive. It is `max_len - overlap` when that is positive, and `max_len` when it is not. It exceeds `max_len` for a negative overlap, and is at most `max_len` otherwise |
| Chunking.Windows | solution_micaela/build_index.py:52-58 | the windows of a paragraph from `start` are empty exactly when `start` is past its end, and every window is non-empty and at most `max_len` long |
| Chunking.WindowsReassemble | solution_micaela/build_index.py:50-58 | with `0 < step <= max_len` the windows cover the paragraph in order without gaps: dropping the repeated overlaps rebuilds it |
| Chunking.WindowsPositions | solution_micaela/build_index.py:52-58 | window `k` is `p[start + k*step : start + k*step + max_len]`, every window but the last is full, and consecutive starts differ by exactly `step` |
| Chunking.WindowsLast | solution_micaela/build_index.py:56-57 | the last window ends at the end of the paragraph |
| Chunking.AppendWindows | solution_micaela/build_index.py:50-58 | the `while start < len(p)` loop appends exactly the windows of `p` |
| Chunking.ChunkText | solution_micaela/build_index.py:24-62 | the loop over paragraphs returns the fold of the per-paragraph step followed by the final flush, and every chunk is non-empty and at most `max_len` long |
| Chunking.FeedAllBounded | solution_micaela/build_index.py:33-58 | the loop keeps every emitted chunk non-empty and at most `max_len`, and the buffer at most `max_len` |
| Chunking.ChunkBounds | solution_micaela/build_index.py:35-61 | every chunk is non-empty and at most `max_len` characters long |
| Chunking.FeedAllProductive | solution_micaela/build_index.py:33-61 | once a paragraph has been read, the result has at least one chunk |
| Chunking.ChunkEmptyIff | solution_micaela/build_index.py:30-62 | a text yields no chunks exactly when it is empty or all whitespace |
| Chunking.ChunkSegmentation | solution_micaela/build_index.py:33-58 | the chunks come from a segmentation of the paragraphs into merged runs and oversized paragraphs. The segments produce the chunks in order. A merged chunk is its paragraphs joined by `"\n\n"` and fits in `max_len`. A run closes only when the next paragraph would not fit. An oversized paragraph is never merged |
| IndexBuild.AppendChunks | solution_micaela/build_index.py:71-73 | the `enumerate` loop appends the chunks to `all_texts` and their numbered metadata to `metadata` |
| IndexBuild.BuildIndex | solution_micaela/build_index.py:64-76 | the document loop with `max_len=800` produces the concatenated chunk lists and metadata, or aborts when there are no chunks |
| IndexBuild.MetaLength | solution_micaela/build_index.py:67-73 | `metadata` is exactly as long as `all_texts` |
| IndexBuild.Provenance | solution_micaela/build_index.py:67-73 | the chunks of document `k` sit at consecutive positions of `all_texts` in emission order, and the metadata at each position names document `k` and that chunk's number |
| IndexBuild.CorpusBounds | solution_micaela/build_index.py:67-73 | when the build goes on, the lists have equal length and every text is a non-empty chunk of at most 800 characters |
| IndexBuild.AbortedIff | solution_micaela/build_index.py:74-76 | the build aborts exactly when every document is empty or all whitespace |
| QueryAgent.RecordAt | solution_micaela/query_agent.py:33 | reading the record fails with `KeyError` exactly when the `Nombre` or `Balance` column is missing; a record read from a row holds that row's identifier, name and balance cells |
| QueryAgent.LookupBalance | solution_micaela/query_agent.py:26-33 | no table file gives None; a table without an `ID_Cedula` column raises `KeyError` |
| QueryAgent.LookupFirstRow | solution_micaela/query_agent.py:30-33 | with an `ID_Cedula` column, the lookup misses exactly when no trimmed identifier equals the trimmed key, and otherwise reads the first matching row in table order |
| QueryAgent.IdMatchIff | solution_micaela/query_agent.py:54 | the matcher at a position yields exactly the match `\b[Vv]-?\d{6,8}\b` describes there |
| QueryAgent.IdMatchNoSpace | solution_micaela/query_agent.py:56 | an identifier match contains no space, so `.replace(' ', '')` leaves it unchanged |
| QueryAgent.RouteIdentifier | solution_micaela/query_agent.py:54-61 | a question is routed to the lookup exactly when it contains an identifier, and then with the leftmost one, whatever keywords it also contains |
| QueryAgent.RouteKb | solution_micaela/query_agent.py:63-75 | retrieval is chosen exactly when there is no identifier and a keyword occurs in the lower-cased question; the general reply exactly when neither occurs |
| QueryAgent.AgentKeywordsReduce | solution_micaela/query_agent.py:64 | `tarjetas` and `abrir cuenta` add nothing to the keyword test, as they contain `tarjeta` and `cuenta` |
| QueryAgent.RetrieveDocs | solution_micaela/query_agent.py:45-50 | the filtering loop returns exactly the results of the in-range search positions |
| QueryAgent.HitsAppend | solution_micaela/query_agent.py:46-49 | filtering works element by element and preserves order: the results for `a + b` are those for `a` followed by those for `b` |
| QueryAgent.HitsSingle | solution_micaela/query_agent.py:47-49 | a position is kept, with the text and metadata at that same position, exactly when `0 <= idx < len(texts)` |
| QueryAgent.HitsFrom | solution_micaela/query_agent.py:45-50 | there are at most as many results as positions, and each result's text and metadata come from one in-range position |
| QueryAgent.KbAnswer | solution_micaela/query_agent.py:69-72 | the `answer +=` loop yields the header followed by one block per passage |
| QueryAgent.BlocksAppend | solution_micaela/query_agent.py:70-71 | the blocks follow the retrieval order: those of `a + b` are those of `a` followed by those of `b` |
| QueryAgent.RouteAndRespond | solution_micaela/query_agent.py:52-75 | the answer of `route_and_respond`: a balance line, the not-found line, the header plus the blocks, or the general reply; a missing column is an error |
| QueryAgent.IdentifierAnswer | solution_micaela/query_agent.py:55-61 | on the identifier branch the search result plays no part, and a miss yields the not-found reply quoting the identifier |
| QueryAgent.NoTableNotFound | solution_micaela/query_agent.py:27-28 | with no table file, the identifier branch answers not found |
| QueryAgent.KbAnswerShape | solution_micaela/query_agent.py:66-72 | the knowledge-base answer is the header and the blocks of the in-range positions; with nothing retrieved it is the header alone |
| Classifier.FirstIdHit | langchain_groq_app/server.py:51-56 | the first identifier column, in column order, with a matching row, and that column's first matching row; no earlier identifier column has a match |
| Classifier.FindBalance | langchain_groq_app/server.py:50-60 | the early-return loop over the identifier columns returns what `find_balance` specifies |
| Classifier.BalanceLookupIff | langchain_groq_app/server.py:51-56 | the lookup finds something exactly when some identifier column has a row whose trimmed value equals the trimmed key; with no identifier column it returns None |
| Classifier.BalanceLookupFirst | langchain_groq_app/server.py:54-59 | a found answer names the first identifier column with a match and uses its first matching row. The balance comes from the first column whose name contains a balance key, or is the placeholder |
| Classifier.BalanceLookupNonEmpty | langchain_groq_app/server.py:154 | a found answer is never empty, so `if res` holds exactly when one was found |
| Classifier.CellAlwaysFound | langchain_groq_app/server.py:163-165 | looking up any cell of an identifier column finds an answer |
| Classifier.IdWordAt | langchain_groq_app/server.py:68 | the keyword alternation matches at a position exactly when one of `cedula`, `cédula`, `dni`, `id` occurs there, ending after it |
| Classifier.IdWordsExclusive | langchain_groq_app/server.py:68 | at most one keyword occurs at a position, so the order of the alternatives does not matter |
| Classifier.SkipSeparators | langchain_groq_app/server.py:68 | `[:\s]*` is greedy: it stops at the first character that is not a colon or whitespace |
| Classifier.TokenEnd | langchain_groq_app/server.py:68 | `[A-Za-z0-9\-]+` is greedy: the token runs to the first character outside the class |
| Classifier.DigitSearch | langchain_groq_app/server.py:65 | the digit search finds the leftmost run of at least six digits, at the start of that run, keeping at most twelve digits; it fails exactly when no such run exists |
| Classifier.BalanceQueryDigits | langchain_groq_app/server.py:64-67 | without the trigger there is no identifier; with it, the leftmost six-to-twelve digit match wins over any keyword |
| Classifier.KeywordSearch | langchain_groq_app/server.py:68 | the keyword search returns the leftmost word-initial keyword followed, after separators, by a non-empty token, and the end of that token |
| Classifier.BalanceQueryKeyword | langchain_groq_app/server.py:68-71 | when triggered and without six digits, the result is the token after the leftmost keyword that is followed by one; None exactly when no keyword is |
| Classifier.ConsultarTriggers | langchain_groq_app/server.py:64 | where the lower-cased text reads `consultar saldo`, the trigger matches there and ends after it |
| Classifier.SampleQueryId | langchain_groq_app/test_server.py:10 | `'Consultar saldo cedula V-12345678'` yields `"12345678"` |
| Classifier.BalanceQueryNonEmpty | langchain_groq_app/server.py:152 | an extracted identifier is never empty, so `if bal_id` holds exactly when one was found |
| Classifier.LlmPrompt | langchain_groq_app/server.py:176 | the prompt handed to the model contains the question |
| Classifier.IsKbQuery | langchain_groq_app/server.py:74-90 | the early-return loop is true exactly when one of the ten terms occurs in the lower-cased text |
| Server.ScanTable | langchain_groq_app/server.py:159-167 | the nested loops over the identifier columns and their values return the scan's answer |
| Server.ScanColumn | langchain_groq_app/server.py:162-167 | the loop over one column returns its first answer, or the scan goes on with the next column |
| Server.FirstCellFirst | langchain_groq_app/server.py:162-164 | the first identifier cell, in column-then-row order, that is non-empty and occurs in the text; none exactly when no such cell exists |
| Server.ScanFromCell | langchain_groq_app/server.py:163-167 | the scan answers with the lookup of the first cell it hits and never goes past it |
| Server.ScanFirst | langchain_groq_app/server.py:159-167 | the scan answers exactly when some identifier cell occurs in the text, and then with the lookup of the first such cell in scan order |
| Server.Query | langchain_groq_app/server.py:146-178 | the endpoint's branches run in order and give the reply `query` specifies, for a table as `load_balances` leaves it (the only value `BALANCES_DF` takes, server.py:119) |
| Server.BalanceFirst | langchain_groq_app/server.py:151-156 | with an identifier and a loaded table the source is `"balance"`, and the answer is `"ID no encontrado"` exactly when the lookup misses, and otherwise the lookup's answer |
| Server.FoundNotNotFound | langchain_groq_app/server.py:155-156 | a found answer is never the not-found message |
| Server.ScanSecond | langchain_groq_app/server.py:158-167 | without an identifier, a table identifier occurring in the text gives a balance answer ahead of the chain and the model |
| Server.KbThenLlm | langchain_groq_app/server.py:152-178 | when no table is loaded, or neither an extracted identifier nor a table identifier occurs, the chain answers exactly when a term occurs and the chain is loaded; otherwise the model answers, with the text in its prompt |
| Cli.MainLoop | langchain_groq_app/app.py:97-144 | after loading the balances as `load_balances` does, the `while True` loop with `continue` and `break` takes exactly the session's actions |
| Cli.Answer | langchain_groq_app/app.py:118-144 | one pass of the loop body after the empty and exit tests takes the dispatch's action |
| Cli.RunLength | langchain_groq_app/app.py:110-116 | the loop acts at most once per line |
| Cli.EmptyLineSkipped | langchain_groq_app/app.py:112-113 | an empty line changes nothing, wherever it is read |
| Cli.ExitEnds | langchain_groq_app/app.py:114-116 | the first exit word ends the session: nothing after it is read |
| Cli.RunAnswersAll | langchain_groq_app/app.py:110-144 | without exit words, every non-empty line is answered, in order |
| Cli.BalanceFirst | langchain_groq_app/app.py:119-128 | with an identifier and a loaded table the line gets a balance action, found exactly when the lookup finds, and the chain and model are not used |
| Cli.KbThenLlm | langchain_groq_app/app.py:131-144 | otherwise the chain is used exactly when a term occurs and the chain exists, else the model with the line in its prompt; the table plays no part |
| FrontEnds.ScanOnlyInServer | langchain_groq_app/server.py:158-167 | a table identifier in a question without an extractable identifier gets a balance answer from the endpoint but not from the console loop |

## Left out

- Text.IsSpace, Text.IsDigit, Text.IsWordChar, Text.Lower: Python's `\d`, `\w`
  and `lower()` are Unicode-wide. The model covers ASCII and the Latin-1
  supplement only: `\d` is ASCII digits; `\w` and `lower()` cover ASCII and
  Latin-1 letters. `IsSpace` is the full `str.isspace` set. Special case
  mappings of `re.I` are not modelled either.
- Chunking.ChunkText: requires `max_len > 0`, as the program's callers use it.
  With `max_len <= 0` Python's negative slicing changes the meaning, and the
  window loop need not end.
- Chunking.WindowsReassemble: coverage is stated for `0 < step <= max_len`,
  that is, for `overlap >= 0`. A negative overlap skips characters between
  windows.
- File and persistence I/O are not modelled. This covers `load_kb_files`,
  `pd.read_csv`, the existence checks, `joblib`, the JSON metadata and FAISS
  files, and `index_kb.py`. A document is given with its already stripped text,
  and a table as names and rows of strings.
- pandas type inference is not modelled. Every cell is the string `astype(str)`
  yields, so NaN and numeric formatting are not modelled. Column names are
  assumed distinct, so that `df[col]` is one column.
- QueryAgent.RecordAt: `float(...)` of the balance is not modelled; the balance
  stays a string, and a failing conversion is not a modelled error.
- TF-IDF, sentence embeddings, L2 normalisation and the FAISS build and search
  are floating-point code in foreign libraries. The search result `I[0]` is an
  input.
- The language model and the `RetrievalQA` chain are external services. A
  reply or action names the service and what it is given.
- In `server.py`, the HTTP 500 raised when the language model fails is not
  modelled.
- The FastAPI plumbing is not modelled: `startup_event`, `/status`,
  `/reindex`, and the process-wide globals.
- Console I/O is not modelled: `input`, `print`, `EOFError`, and `main` of
  `query_agent.py`. The console session is the finite list of lines read, and
  it ends with the input.
- Resource loading at the start of `main_loop` and in `startup_event` is
  reduced to its outcomes. The table is the frame read, or absent when reading
  fails, and is then normalized by `Tables.LoadBalances`. The chain is built or
  not.
