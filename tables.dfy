/**
 * The balances CSV as the code reads it through pandas: a header of column
 * names and rows of cells, each cell taken as the text `astype(str)` gives it.
 * Column names are assumed distinct, so `df[name]` is a single column.
 */
module Tables {
  import opened Common
  import opened Text
  import opened Scan

  datatype Table = Table(columns: seq<string>, rows: seq<seq<string>>)

  /** Every row has one cell per column, as in a data frame. */
  ghost predicate Rectangular(t: Table)
  {
    forall r :: 0 <= r < |t.rows| ==> |t.rows[r]| == |t.columns|
  }

  type Frame = t: Table | Rectangular(t) witness Table([], [])

  /** `df.columns = [c.strip().lower() for c in df.columns]` */
  function NormalizeColumns(t: Frame): (n: Frame)
    ensures n.rows == t.rows && |n.columns| == |t.columns|
    ensures forall c :: 0 <= c < |t.columns| ==> n.columns[c] == LowerStr(Strip(t.columns[c]))
  {
    Table(seq(|t.columns|, c requires 0 <= c < |t.columns| => LowerStr(Strip(t.columns[c]))), t.rows)
  }

  /** Every column name is already stripped and lower-cased. */
  predicate Normalized(t: Table)
  {
    forall c :: 0 <= c < |t.columns| ==> LowerStr(Strip(t.columns[c])) == t.columns[c]
  }

  /** Normalizing yields normalized names, and a normalized frame is left as it is. */
  lemma NormalizeSpec(t: Frame)
    ensures Normalized(NormalizeColumns(t))
    ensures Normalized(t) ==> NormalizeColumns(t) == t
  {
    forall c | 0 <= c < |t.columns| {
      StripLowerIdempotent(t.columns[c]);
    }
  }

  /** `load_balances`: `csv` is the frame `pd.read_csv` reads, or None when the
      file does not exist (the raised `FileNotFoundError` is caught by every
      caller, which then keeps no table). */
  function LoadBalances(csv: Option<Frame>): (df: Option<Frame>)
    ensures df.Some? <==> csv.Some?
    ensures df.Some? ==> Normalized(df.value) && df.value.rows == csv.value.rows
    ensures df.Some? ==> |df.value.columns| == |csv.value.columns|
    ensures df.Some? ==> forall c :: 0 <= c < |csv.value.columns| ==>
      df.value.columns[c] == LowerStr(Strip(csv.value.columns[c]))
  {
    match csv
    case None => None
    case Some(t) => NormalizeSpec(t); Some(NormalizeColumns(t))
  }

  /** The first column, from `from` on, named `name`. */
  function ColumnIndex(cols: seq<string>, name: string, from: nat): (r: Option<nat>)
    ensures r.Some? ==> from <= r.value < |cols| && cols[r.value] == name
    ensures r.Some? ==> forall j :: from <= j < r.value ==> cols[j] != name
    ensures r.None? ==> forall j :: from <= j < |cols| ==> cols[j] != name
    decreases |cols| - from
  {
    if from >= |cols| then None
    else if cols[from] == name then Some(from)
    else ColumnIndex(cols, name, from + 1)
  }

  /** The first column, from `from` on, whose name contains one of `keys`. */
  function KeyedColumn(cols: seq<string>, keys: seq<string>, from: nat): (r: Option<nat>)
    ensures r.Some? ==> from <= r.value < |cols| && MentionsAny(cols[r.value], keys)
    ensures r.Some? ==> forall j :: from <= j < r.value ==> !MentionsAny(cols[j], keys)
    ensures r.None? ==> forall j :: from <= j < |cols| ==> !MentionsAny(cols[j], keys)
    decreases |cols| - from
  {
    if from >= |cols| then None
    else if MentionsAny(cols[from], keys) then Some(from)
    else KeyedColumn(cols, keys, from + 1)
  }

  /** `df[col].astype(str).str.strip() == key.strip()` at row `r`. */
  predicate CellMatches(t: Frame, r: nat, c: nat, key: string)
    requires r < |t.rows| && c < |t.columns|
  {
    Strip(t.rows[r][c]) == Strip(key)
  }

  /** Row `r` is the first whose trimmed cell in column `c` equals the trimmed key. */
  ghost predicate IsFirstMatch(t: Frame, c: nat, r: nat, key: string)
    requires c < |t.columns|
  {
    && r < |t.rows| && CellMatches(t, r, c, key)
    && forall j :: 0 <= j < r ==> !CellMatches(t, j, c, key)
  }

  /** The first row, from `from` on, whose cell in column `c` matches `key`:
      `df[mask].iloc[0]`, or None when the selection is empty. */
  function FirstRow(t: Frame, c: nat, key: string, from: nat): (r: Option<nat>)
    requires c < |t.columns|
    ensures r.Some? ==> from <= r.value < |t.rows| && CellMatches(t, r.value, c, key)
    ensures r.Some? ==> forall j :: from <= j < r.value ==> !CellMatches(t, j, c, key)
    ensures r.None? ==> forall j :: from <= j < |t.rows| ==> !CellMatches(t, j, c, key)
    decreases |t.rows| - from
  {
    var k := Strip(key);
    if from >= |t.rows| then None
    else if Strip(t.rows[from][c]) == k then Some(from)
    else FirstRow(t, c, key, from + 1)
  }
}
