/** The dashboard's tables: a row maps a column name to a cell, and a cell
    is a number, a piece of text (the sentinel "N/A" among them) or missing
    (pandas' NaN). */
module Frame {

  import opened Wrappers
  import opened Strings

  datatype Cell = Num(n: int) | Text(s: string) | Missing

  /** The sentinel written for unreported counts. */
  const NA: Cell := Text("N/A")

  type Row = map<string, Cell>

  /** A loaded data frame: its column names in order, and its rows. */
  datatype Table = Table(columns: seq<string>, rows: seq<Row>)

  /** `row[col]`, with a column the row does not hold read as missing. */
  function CellAt(row: Row, col: string): Cell {
    if col in row then row[col] else Missing
  }

  /** pandas' `to_numeric`: numbers and optionally signed strings of
      decimal digits have a value; anything else does not (`errors='coerce'`
      turns it into NaN). */
  function NumericValue(c: Cell): (r: Option<int>)
    ensures c.Num? ==> r == Some(c.n)
    ensures c.Missing? || c == NA ==> r == None
  {
    match c
    case Num(n) => Some(n)
    case Text(s) => ParseInt(s)
    case Missing => None
  }

  /** A cell's contribution to a sum: "N/A" is replaced by 0 first, then
      coerced; what has no numeric value is NaN, which `sum` skips. */
  function Coerce(c: Cell): int {
    if c == NA then 0
    else match NumericValue(c)
      case Some(v) => v
      case None => 0
  }

  /** The sentinel, a missing cell and unparseable text all count as zero;
      a number counts as itself, and digits, signed or not, as their value. */
  lemma CoerceSentinel(c: Cell)
    ensures c == NA || c.Missing? ==> Coerce(c) == 0
    ensures c.Num? ==> Coerce(c) == c.n
    ensures c.Text? && c.s != [] && AllDigits(c.s) ==> Coerce(c) == DigitsValue(c.s)
    ensures c.Text? && |c.s| >= 2 && c.s[0] == '-' && AllDigits(c.s[1..]) ==>
      Coerce(c) == -(DigitsValue(c.s[1..]) as int)
    ensures c.Text? && ParseInt(c.s).None? ==> Coerce(c) == 0
  {
    if c.Text? {
      ParseIntCorrect(c.s);
    }
  }

  /** `df[cols].sum(axis=1)` for one row, sentinel-safe. */
  function RowSum(row: Row, cols: seq<string>): int {
    if cols == [] then 0 else Coerce(CellAt(row, cols[0])) + RowSum(row, cols[1..])
  }

  lemma {:induction false} RowSumAppend(row: Row, a: seq<string>, b: seq<string>)
    ensures RowSum(row, a + b) == RowSum(row, a) + RowSum(row, b)
  {
    if a == [] {
      assert a + b == b;
    } else {
      assert (a + b)[1..] == a[1..] + b;
      RowSumAppend(row, a[1..], b);
    }
  }

  /** Two rows that agree on `cols` have the same sum over them. */
  lemma {:induction false} RowSumAgree(a: Row, b: Row, cols: seq<string>)
    requires forall c :: c in cols ==> CellAt(a, c) == CellAt(b, c)
    ensures RowSum(a, cols) == RowSum(b, cols)
  {
    if cols != [] {
      RowSumAgree(a, b, cols[1..]);
    }
  }

  /** A row whose cells in `cols` are all "N/A" or missing sums to 0. */
  lemma {:induction false} RowSumOfBlanks(row: Row, cols: seq<string>)
    requires forall c :: c in cols ==> CellAt(row, c) == NA || CellAt(row, c).Missing?
    ensures RowSum(row, cols) == 0
  {
    if cols != [] {
      RowSumOfBlanks(row, cols[1..]);
    }
  }

  /** `[c for c in cols if word in c]`. */
  function ColumnsContaining(cols: seq<string>, word: string): (r: seq<string>)
    ensures forall c :: c in r <==> c in cols && Contains(c, word)
    ensures |r| <= |cols|
  {
    if cols == [] then []
    else (if Contains(cols[0], word) then [cols[0]] else []) + ColumnsContaining(cols[1..], word)
  }

  /** `[c for c in cols if w1 in c or w2 in c]`. */
  function ColumnsContainingEither(cols: seq<string>, w1: string, w2: string): (r: seq<string>)
    ensures forall c :: c in r <==> c in cols && (Contains(c, w1) || Contains(c, w2))
  {
    if cols == [] then []
    else (if Contains(cols[0], w1) || Contains(cols[0], w2) then [cols[0]] else [])
         + ColumnsContainingEither(cols[1..], w1, w2)
  }

  /** `[c for c in cols if w1 in c and w2 in c]`. */
  function ColumnsContainingBoth(cols: seq<string>, w1: string, w2: string): (r: seq<string>)
    ensures forall c :: c in r <==> c in cols && Contains(c, w1) && Contains(c, w2)
  {
    if cols == [] then []
    else (if Contains(cols[0], w1) && Contains(cols[0], w2) then [cols[0]] else [])
         + ColumnsContainingBoth(cols[1..], w1, w2)
  }

  /** Inclusion-exclusion over the columns of one row: the sums over the
      columns naming `w1` and those naming `w2` add up to the sum over the
      columns naming either, plus those naming both (counted twice). */
  lemma {:induction false} RowSumInclusionExclusion(row: Row, cols: seq<string>, w1: string, w2: string)
    ensures RowSum(row, ColumnsContaining(cols, w1)) + RowSum(row, ColumnsContaining(cols, w2))
         == RowSum(row, ColumnsContainingEither(cols, w1, w2)) + RowSum(row, ColumnsContainingBoth(cols, w1, w2))
  {
    if cols != [] {
      RowSumInclusionExclusion(row, cols[1..], w1, w2);
      var c := cols[0];
      var h1 := if Contains(c, w1) then [c] else [];
      var h2 := if Contains(c, w2) then [c] else [];
      var he := if Contains(c, w1) || Contains(c, w2) then [c] else [];
      var hb := if Contains(c, w1) && Contains(c, w2) then [c] else [];
      RowSumAppend(row, h1, ColumnsContaining(cols[1..], w1));
      RowSumAppend(row, h2, ColumnsContaining(cols[1..], w2));
      RowSumAppend(row, he, ColumnsContainingEither(cols[1..], w1, w2));
      RowSumAppend(row, hb, ColumnsContainingBoth(cols[1..], w1, w2));
    }
  }

  /** When no column names both words, the "both" part is empty. */
  lemma {:induction false} NoColumnContainsBoth(cols: seq<string>, w1: string, w2: string)
    requires forall c :: c in cols ==> !(Contains(c, w1) && Contains(c, w2))
    ensures ColumnsContainingBoth(cols, w1, w2) == []
  {
    if cols != [] {
      NoColumnContainsBoth(cols[1..], w1, w2);
    }
  }

  /** The text of a cell that holds a string (pandas' NaN and numbers hold none). */
  function TextOf(c: Cell): Option<string> {
    if c.Text? then Some(c.s) else None
  }

  /** The cells of one column, row by row (`df[col]`). */
  function ColumnValues(rows: seq<Row>, col: string): (r: seq<Cell>)
    ensures |r| == |rows| && forall i :: 0 <= i < |rows| ==> r[i] == CellAt(rows[i], col)
  {
    if rows == [] then [] else [CellAt(rows[0], col)] + ColumnValues(rows[1..], col)
  }
}
