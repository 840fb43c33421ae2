/**
 * Grid normalisation: the part of `handleFile` that turns the decoded first
 * sheet (a two-dimensional array of cells) into a header row and body rows.
 */
module Grid {
  import opened JsText

  /** A decoded cell: a string, an integer, or null/undefined. */
  datatype Cell = Str(s: string) | Num(n: int) | Missing

  /** `String(c ?? "")`: the display form used by the search and the table. */
  function CellText(c: Cell): (r: string)
    ensures c.Str? ==> r == c.s
    ensures c.Num? ==> r == IntToString(c.n)
    ensures c.Missing? ==> r == ""
  {
    match c
    case Str(s) => s
    case Num(n) => IntToString(n)
    case Missing => ""
  }

  /** JavaScript falsiness, as `v || ""` tests it: "", 0, null and undefined. */
  predicate IsFalsy(c: Cell) {
    c == Str("") || c == Num(0) || c == Missing
  }

  /** `String(v || "")`. */
  function HeaderProbe(c: Cell): string {
    if IsFalsy(c) then "" else CellText(c)
  }

  /** The synthetic name of the column at zero-based index `i`. */
  function ColumnLabel(i: nat): string {
    "Column " + NatToString(i + 1)
  }

  /** The header for the cell `v` at column `i` of the first row. */
  function HeaderName(v: Cell, i: nat): string {
    if IsBlank(HeaderProbe(v)) then ColumnLabel(i) else CellText(v)
  }

  function InferHeaders(firstRow: seq<Cell>): (headers: seq<string>)
    ensures |headers| == |firstRow|
  {
    seq(|firstRow|, i requires 0 <= i < |firstRow| => HeaderName(firstRow[i], i))
  }

  /**
   * One body row, widened to `width`. Cells the row has keep their value,
   * except null/undefined, which becomes "". Setting `length` leaves holes
   * that `map` skips, so widened positions stay unset and read as undefined:
   * they are `Missing`. A row longer than `width` keeps all its cells.
   */
  function NormalizeRow(r: seq<Cell>, width: nat): (row: seq<Cell>)
    ensures |row| == if |r| < width then width else |r|
    ensures forall j :: 0 <= j < |r| ==> row[j] == if r[j] == Missing then Str("") else r[j]
    ensures forall j :: |r| <= j < |row| ==> row[j] == Missing
  {
    var n := if |r| < width then width else |r|;
    seq(n, j requires 0 <= j < n => if j < |r| then (if r[j] == Missing then Str("") else r[j]) else Missing)
  }

  datatype Table = Table(headers: seq<string>, rows: seq<seq<Cell>>)

  /**
   * `handleFile` after decoding: headers from the first row, the rest as body
   * rows in order. Each body row is at least as wide as the header row
   * and never truncated; each of its own cells keeps its value, except
   * null/undefined, which becomes ""; widened positions stay unset.
   */
  function Normalize(grid: seq<seq<Cell>>): (t: Table)
    ensures grid == [] ==> t == Table([], [])
    ensures grid != [] ==> |t.headers| == |grid[0]| && |t.rows| == |grid| - 1
    ensures grid != [] ==> forall k :: 0 <= k < |t.rows| ==>
      |t.rows[k]| == (if |grid[k + 1]| < |t.headers| then |t.headers| else |grid[k + 1]|)
    ensures grid != [] ==> forall k, j :: 0 <= k < |t.rows| && 0 <= j < |grid[k + 1]| ==>
      t.rows[k][j] == if grid[k + 1][j] == Missing then Str("") else grid[k + 1][j]
    ensures grid != [] ==> forall k, j :: 0 <= k < |t.rows| && |grid[k + 1]| <= j < |t.rows[k]| ==>
      t.rows[k][j] == Missing
  {
    if grid == [] then Table([], [])
    else
      var headers := InferHeaders(grid[0]);
      var body := grid[1..];
      Table(headers, seq(|body|, k requires 0 <= k < |body| => NormalizeRow(body[k], |headers|)))
  }

  // ---------------------------------------------------------------------------
  // Headers
  // ---------------------------------------------------------------------------

  /** A synthetic column name is never blank and names its one-based column number. */
  lemma {:induction false} ColumnLabelWellFormed(i: nat)
    ensures !IsBlank(ColumnLabel(i))
    ensures |ColumnLabel(i)| > 7 && ColumnLabel(i)[..7] == "Column "
    ensures ParseNat(ColumnLabel(i)[7..]) == i + 1
  {
    NotBlankWitness(ColumnLabel(i), 0);
    assert ColumnLabel(i)[7..] == NatToString(i + 1);
    ParseNatToString(i + 1);
  }

  /**
   * A header is never blank. A cell that is "", whitespace only, 0, null or
   * undefined gets "Column i+1"; any other cell keeps its untrimmed text.
   */
  lemma HeaderNameSpec(v: Cell, i: nat)
    ensures !IsBlank(HeaderName(v, i))
    ensures IsFalsy(v) || IsBlank(CellText(v)) ==> HeaderName(v, i) == ColumnLabel(i)
    ensures !(IsFalsy(v) || IsBlank(CellText(v))) ==> HeaderName(v, i) == CellText(v)
  {
    ColumnLabelWellFormed(i);
  }

  /** The header row has one non-blank header per cell of the grid's first row. */
  lemma HeadersSpec(grid: seq<seq<Cell>>)
    requires grid != []
    ensures |Normalize(grid).headers| == |grid[0]|
    ensures forall i :: 0 <= i < |grid[0]| ==> !IsBlank(Normalize(grid).headers[i])
    ensures forall i :: 0 <= i < |grid[0]| ==> Normalize(grid).headers[i] == HeaderName(grid[0][i], i)
  {
    var headers := Normalize(grid).headers;
    forall i | 0 <= i < |grid[0]|
      ensures !IsBlank(headers[i])
    {
      HeaderNameSpec(grid[0][i], i);
    }
  }

  /** Only a non-zero number or a string with a visible character keeps its own text. */
  lemma HeaderKeptIff(v: Cell, i: nat)
    ensures !IsBlank(HeaderProbe(v)) <==>
      (v.Str? && exists k :: 0 <= k < |v.s| && !IsJsWhitespace(v.s[k])) || (v.Num? && v.n != 0)
  {
    BlankIffAllWhitespace(HeaderProbe(v));
    if v.Num? && v.n != 0 {
      NotBlankWitness(CellText(v), 0);
    }
  }

  // ---------------------------------------------------------------------------
  // Body rows
  // ---------------------------------------------------------------------------

  /** A grid that is only a header row has no body rows. */
  lemma HeaderOnly(first: seq<Cell>)
    ensures Normalize([first]).rows == []
    ensures Normalize([first]).headers == InferHeaders(first)
  {
  }

  /** The texts the table shows for a row: `String(r[ci] ?? "")` for each header index. */
  function RenderedTexts(width: nat, row: seq<Cell>): (texts: seq<string>)
    ensures |texts| == width
  {
    seq(width, ci requires 0 <= ci < width => if ci < |row| then CellText(row[ci]) else "")
  }

  /**
   * After normalisation, the table shows each body row's first cells with the
   * texts they were decoded with, "" for the cells the row lacks, and nothing
   * of the cells beyond the header width.
   */
  lemma RenderedRowSpec(grid: seq<seq<Cell>>, k: nat)
    requires grid != [] && k < |grid| - 1
    ensures var t := Normalize(grid);
      var shown := RenderedTexts(|t.headers|, t.rows[k]);
      && |shown| == |t.headers|
      && (forall ci :: 0 <= ci < |shown| ==>
            shown[ci] == if ci < |grid[k + 1]| then CellText(grid[k + 1][ci]) else "")
  {
  }

  /** Example: `[["Name","Age"],["Al",30],["",""]]`. */
  lemma ExampleNameAge()
    ensures Normalize([[Str("Name"), Str("Age")], [Str("Al"), Num(30)], [Str(""), Str("")]])
         == Table(["Name", "Age"], [[Str("Al"), Num(30)], [Str(""), Str("")]])
  {
    var grid := [[Str("Name"), Str("Age")], [Str("Al"), Num(30)], [Str(""), Str("")]];
    NameAgeHeaders();
    var t := Normalize(grid);
    assert t.headers == ["Name", "Age"];
    assert t.rows[0] == NormalizeRow([Str("Al"), Num(30)], 2) == [Str("Al"), Num(30)];
    assert t.rows[1] == NormalizeRow([Str(""), Str("")], 2) == [Str(""), Str("")];
  }

  lemma NameAgeHeaders()
    ensures InferHeaders([Str("Name"), Str("Age")]) == ["Name", "Age"]
  {
    VisibleHeader("Name", 0);
    VisibleHeader("Age", 1);
    InferTwo(Str("Name"), Str("Age"));
  }

  /** A string cell starting with a visible character is its own header. */
  lemma VisibleHeader(s: string, i: nat)
    requires s != [] && !IsJsWhitespace(s[0])
    ensures HeaderName(Str(s), i) == s
  {
    assert HeaderProbe(Str(s)) == s;
    NotBlankWitness(s, 0);
  }

  /** Example: `[["","B"],["x","y"]]` gets "Column 1" for its blank first header. */
  lemma ExampleBlankHeader()
    ensures Normalize([[Str(""), Str("B")], [Str("x"), Str("y")]]).headers == ["Column 1", "B"]
  {
    assert HeaderName(Str(""), 0) == "Column 1" by {
      HeaderNameSpec(Str(""), 0);
      FirstColumnLabel();
    }
    VisibleHeader("B", 1);
    InferTwo(Str(""), Str("B"));
  }

  lemma FirstColumnLabel()
    ensures ColumnLabel(0) == "Column 1"
  {
    assert DigitChar(1) == '1';
    assert NatToString(1) == "1";
  }

  lemma InferTwo(a: Cell, b: Cell)
    ensures InferHeaders([a, b]) == [HeaderName(a, 0), HeaderName(b, 1)]
  {
    var h := InferHeaders([a, b]);
    assert h[0] == HeaderName(a, 0);
    assert h[1] == HeaderName(b, 1);
    assert h == [h[0], h[1]];
  }
}
