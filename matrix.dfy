/**
 The dense matrix of src/matrix.rs, with the element type fixed to `int` (whose
 `Default` is 0): a flat row-major buffer with explicit row and column counts,
 the sequential triple-loop product, and the `Display` and `Debug` renderings.
 */
module Matrices {

  import opened Outcomes
  import opened Text

  /**
   Element (i, j) lives at `data[i * col + j]`. The datatype constructor is
   `Matrix::new`: it keeps its three arguments as given and does not check
   that `|data| == row * col`.
   */
  datatype Matrix = Matrix(data: seq<int>, row: nat, col: nat)

  /**
   The natural-number product `x * y`, written as repeated addition. Dimension
   arithmetic goes through it so that the solver unfolds it only where a lemma
   below asks; `MulIsTimes` says it is the ordinary product.
   */
  function Mul(x: nat, y: nat): nat {
    if x == 0 then 0 else Mul(x - 1, y) + y
  }

  lemma {:induction false} MulIsTimes(x: nat, y: nat)
    ensures Mul(x, y) == x * y
  {
    if x > 0 {
      MulIsTimes(x - 1, y);
    }
  }

  lemma {:induction false} MulMonotone(x: nat, x': nat, y: nat)
    requires x <= x'
    ensures Mul(x, y) <= Mul(x', y)
  {
    if x < x' {
      MulMonotone(x, x' - 1, y);
    }
  }

  /** `Matrix::new`: accepts any buffer and any dimensions and keeps them as given. */
  function New(data: seq<int>, row: nat, col: nat): (m: Matrix)
    ensures m.data == data && m.row == row && m.col == col
  {
    Matrix(data, row, col)
  }

  /** The buffer holds exactly `row * col` elements. */
  predicate WellFormed(m: Matrix) {
    |m.data| == Mul(m.row, m.col)
  }

  /** Every row-major index of the matrix is inside the buffer (extra elements are ignored). */
  predicate Covers(m: Matrix) {
    Mul(m.row, m.col) <= |m.data|
  }

  /**
   What `multiply` needs of its operands so that no index panics: the loops read
   `a` and `b` only when `a.row` and `b.col` are both positive.
   */
  predicate Readable(a: Matrix, b: Matrix) {
    a.row == 0 || b.col == 0 || (Covers(a) && Covers(b))
  }

  const MismatchMessage := "Matrix a's col must be equal to matrix b's row"

  /** The flattened row-major index of (i, j) in a matrix with `cols` columns. */
  function Index(i: nat, j: nat, cols: nat): nat {
    Mul(i, cols) + j
  }

  lemma IndexBound(i: nat, j: nat, cols: nat, rows: nat)
    requires i < rows && j < cols
    ensures Index(i, j, cols) < Mul(rows, cols)
  {
    MulMonotone(i + 1, rows, cols);
  }

  lemma IndexDivMod(i: nat, j: nat, cols: nat)
    requires j < cols
    ensures Index(i, j, cols) / cols == i && Index(i, j, cols) % cols == j
  {
    MulIsTimes(i, cols);
    DivUnique(i * cols + j, cols, i, j);
  }

  /** Euclidean division is unique: p = i * c + j with 0 <= j < c has quotient i and remainder j. */
  lemma DivUnique(p: int, c: nat, i: nat, j: nat)
    requires j < c && p == i * c + j
    ensures p / c == i && p % c == j
  {
    var q, r := p / c, p % c;
    assert (q - i) * c == j - r;
    if q > i {
      MulAtLeast(q - i, c);
    } else if q < i {
      MulAtLeast(i - q, c);
    }
  }

  lemma MulAtLeast(x: nat, y: nat)
    requires x >= 1
    ensures x * y >= y
  {
  }

  lemma QuotientBound(p: nat, cols: nat, rows: nat)
    requires p < Mul(rows, cols)
    ensures cols > 0 && p / cols < rows
  {
    MulIsTimes(rows, cols);
  }

  /**
   The sum over k < len of `a.data[i * a.col + k] * b.data[k * b.col + j]`: what
   the innermost loop of `multiply` has accumulated in cell (i, j) after len steps.
   */
  function PartialDot(a: Matrix, b: Matrix, i: nat, j: nat, len: nat): int
    requires a.col == b.row && Readable(a, b)
    requires i < a.row && j < b.col && len <= a.col
  {
    if len == 0 then 0
    else
      IndexBound(i, len - 1, a.col, a.row);
      IndexBound(len - 1, j, b.col, b.row);
      PartialDot(a, b, i, j, len - 1) + a.data[Index(i, len - 1, a.col)] * b.data[Index(len - 1, j, b.col)]
  }

  /** Cell p of the product buffer: the dot product of row p / b.col of a and column p % b.col of b. */
  function CellAt(a: Matrix, b: Matrix, p: nat): int
    requires a.col == b.row && Readable(a, b)
    requires p < Mul(a.row, b.col)
  {
    QuotientBound(p, b.col, a.row);
    PartialDot(a, b, p / b.col, p % b.col, a.col)
  }

  /** The mathematical product of two compatible matrices, as a new matrix of shape (a.row, b.col). */
  function Product(a: Matrix, b: Matrix): (c: Matrix)
    requires a.col == b.row && Readable(a, b)
    ensures c.row == a.row && c.col == b.col && WellFormed(c)
  {
    Matrix(seq(Mul(a.row, b.col), p requires 0 <= p < Mul(a.row, b.col) => CellAt(a, b, p)), a.row, b.col)
  }

  /** On success the result has a.row rows, b.col columns and exactly a.row * b.col elements. */
  lemma ProductShape(a: Matrix, b: Matrix)
    requires a.col == b.row && Readable(a, b)
    ensures Product(a, b).row == a.row && Product(a, b).col == b.col
    ensures |Product(a, b).data| == a.row * b.col
  {
    MulIsTimes(a.row, b.col);
  }

  /** Cell (i, j) of the product is the sum over k < a.col of a[i][k] * b[k][j]. */
  lemma ProductCell(a: Matrix, b: Matrix, i: nat, j: nat)
    requires a.col == b.row && Readable(a, b)
    requires i < a.row && j < b.col
    ensures Index(i, j, b.col) < |Product(a, b).data|
    ensures Product(a, b).data[Index(i, j, b.col)] == PartialDot(a, b, i, j, a.col)
    ensures i * b.col + j < |Product(a, b).data|
    ensures Product(a, b).data[i * b.col + j] == PartialDot(a, b, i, j, a.col)
  {
    IndexBound(i, j, b.col, a.row);
    IndexDivMod(i, j, b.col);
    MulIsTimes(i, b.col);
  }

  /**
   `multiply`: a dimension mismatch is an error and computes nothing; otherwise a
   zero-initialised buffer of Mul(a.row, b.col) cells is filled by the triple loop,
   each cell accumulating its dot product in place.
   */
  method Multiply(a: Matrix, b: Matrix) returns (r: Result<Matrix>)
    requires a.col == b.row ==> Readable(a, b)
    ensures r.Err? <==> a.col != b.row
    ensures r.Err? ==> r.message == MismatchMessage
    ensures r.Ok? ==> r.value == Product(a, b)
  {
    if a.col != b.row {
      return Err(MismatchMessage);
    }
    var data := new int[Mul(a.row, b.col)](_ => 0);
    for i := 0 to a.row
      invariant forall p :: 0 <= p < data.Length && p < Index(i, 0, b.col) ==> data[p] == CellAt(a, b, p)
      invariant forall p :: Index(i, 0, b.col) <= p < data.Length ==> data[p] == 0
    {
      FillRow(a, b, i, data);
    }
    return Ok(Matrix(data[..], a.row, b.col));
  }

  /**
   One pass of the middle loop of `multiply`: computes the cells of row i, given
   that the rows before it are done and the rest of the buffer is still zero.
   */
  method FillRow(a: Matrix, b: Matrix, i: nat, data: array<int>)
    requires a.col == b.row && Readable(a, b)
    requires i < a.row && data.Length == Mul(a.row, b.col)
    requires forall p :: 0 <= p < data.Length && p < Index(i, 0, b.col) ==> data[p] == CellAt(a, b, p)
    requires forall p :: Index(i, 0, b.col) <= p < data.Length ==> data[p] == 0
    modifies data
    ensures forall p :: 0 <= p < data.Length && p < Index(i + 1, 0, b.col) ==> data[p] == CellAt(a, b, p)
    ensures forall p :: Index(i + 1, 0, b.col) <= p < data.Length ==> data[p] == 0
  {
    var n := b.col;
    MulMonotone(i + 1, a.row, n);
    for j := 0 to n
      invariant forall p :: 0 <= p < data.Length && p < Index(i, j, n) ==> data[p] == CellAt(a, b, p)
      invariant forall p :: Index(i, j, n) <= p < data.Length ==> data[p] == 0
    {
      IndexBound(i, j, n, a.row);
      AccumulateCell(a, b, i, j, data);
      IndexDivMod(i, j, n);
    }
  }

  /** The innermost loop of `multiply`: adds a[i][k] * b[k][j] into cell (i, j) for every k < a.col. */
  method AccumulateCell(a: Matrix, b: Matrix, i: nat, j: nat, data: array<int>)
    requires a.col == b.row && Readable(a, b)
    requires i < a.row && j < b.col && data.Length == Mul(a.row, b.col)
    modifies data
    ensures Index(i, j, b.col) < data.Length
    ensures data[Index(i, j, b.col)] == old(data[Index(i, j, b.col)]) + PartialDot(a, b, i, j, a.col)
    ensures forall p :: 0 <= p < data.Length && p != Index(i, j, b.col) ==> data[p] == old(data[p])
  {
    IndexBound(i, j, b.col, a.row);
    var cell := Index(i, j, b.col);
    for k := 0 to a.col
      invariant data[cell] == old(data[cell]) + PartialDot(a, b, i, j, k)
      invariant forall p :: 0 <= p < data.Length && p != cell ==> data[p] == old(data[p])
    {
      IndexBound(i, k, a.col, a.row);
      IndexBound(k, j, b.col, b.row);
      data[cell] := data[cell] + a.data[Index(i, k, a.col)] * b.data[Index(k, j, b.col)];
    }
  }

  /** `new` keeps the buffer it is given, and also accepts one of the wrong length. */
  lemma ExampleNew()
    ensures New([1, 2, 3, 4, 5, 6], 2, 3).data == [1, 2, 3, 4, 5, 6]
    ensures WellFormed(New([1, 2, 3, 4, 5, 6], 2, 3))
    ensures !WellFormed(New([1, 2], 2, 3))
  {
    assert Mul(2, 3) == 6;
  }

  /** [1,2,3,4,5,6] as 2×3 times [1,2,3,4,5,6] as 3×2 is [22,28,49,64] as 2×2. */
  lemma ExampleProduct()
    ensures Product(Matrix([1, 2, 3, 4, 5, 6], 2, 3), Matrix([1, 2, 3, 4, 5, 6], 3, 2))
            == Matrix([22, 28, 49, 64], 2, 2)
  {
    var a, b := Matrix([1, 2, 3, 4, 5, 6], 2, 3), Matrix([1, 2, 3, 4, 5, 6], 3, 2);
    assert Mul(2, 2) == 4 && Mul(2, 3) == 6 && Mul(3, 2) == 6 && Mul(1, 3) == 3 && Mul(1, 2) == 2;
    var c := Product(a, b);
    ProductCell(a, b, 0, 0);
    ProductCell(a, b, 0, 1);
    ProductCell(a, b, 1, 0);
    ProductCell(a, b, 1, 1);
    assert PartialDot(a, b, 0, 0, 3) == 22;
    assert PartialDot(a, b, 0, 1, 3) == 28;
    assert PartialDot(a, b, 1, 0, 3) == 49;
    assert PartialDot(a, b, 1, 1, 3) == 64;
    assert c.data == [22, 28, 49, 64];
  }

  // ----- Display and Debug -----

  /** Row i of the matrix: the `col` elements that start at index i * col. */
  function RowOf(m: Matrix, i: nat): (r: seq<int>)
    requires Covers(m) && i < m.row
    ensures |r| == m.col
  {
    MulMonotone(i + 1, m.row, m.col);
    m.data[Index(i, 0, m.col)..Index(i, 0, m.col) + m.col]
  }

  lemma RowOfAt(m: Matrix, i: nat, j: nat)
    requires Covers(m) && i < m.row && j < m.col
    ensures Index(i, j, m.col) < |m.data| && RowOf(m, i)[j] == m.data[Index(i, j, m.col)]
  {
    MulMonotone(i + 1, m.row, m.col);
    assert Mul(i + 1, m.col) == Mul(i, m.col) + m.col;
    var start := Index(i, 0, m.col);
    assert RowOf(m, i) == m.data[start..start + m.col];
  }

  /** Elements as `Display` writes them within a row: each one followed by one space. */
  function CellsText(xs: seq<int>): string {
    if xs == [] then "" else CellsText(xs[..|xs| - 1]) + IntToString(xs[|xs| - 1]) + " "
  }

  lemma CellsTextStep(xs: seq<int>, j: nat)
    requires j < |xs|
    ensures CellsText(xs[..j + 1]) == CellsText(xs[..j]) + IntToString(xs[j]) + " "
  {
    assert xs[..j + 1][..j] == xs[..j];
  }

  /** The text of each row, without the separators between rows. */
  function RowTexts(m: Matrix): (rows: seq<string>)
    requires Covers(m)
    ensures |rows| == m.row
  {
    seq(m.row, i requires 0 <= i < m.row => CellsText(RowOf(m, i)))
  }

  /**
   What `Display` has written after the first n of the row texts: the opening
   brace, then each row, with a comma after every row but the last one.
   */
  function Written(rows: seq<string>, n: nat): string
    requires n <= |rows|
  {
    if n == 0 then "{"
    else Written(rows, n - 1) + rows[n - 1] + (if n - 1 != |rows| - 1 then "," else "")
  }

  /** The whole `Display` output: every row written, then the closing brace. */
  function Render(m: Matrix): string
    requires Covers(m)
  {
    Written(RowTexts(m), m.row) + "}"
  }

  /** `Display::fmt`: writes `{`, then every element and a space, a comma between rows, then `}`. */
  method Display(m: Matrix) returns (s: string)
    requires Covers(m)
    ensures s == Render(m)
  {
    s := "{";
    for i := 0 to m.row
      invariant s == Written(RowTexts(m), i)
    {
      var cells := WriteRow(m, i);
      var sep := if i != m.row - 1 then "," else "";
      s := s + cells + sep;
    }
    s := s + "}";
  }

  /** The inner loop of `Display::fmt`: the elements of row i, each followed by one space. */
  method WriteRow(m: Matrix, i: nat) returns (cells: string)
    requires Covers(m) && i < m.row
    ensures cells == RowTexts(m)[i]
  {
    ghost var row := RowOf(m, i);
    cells := "";
    for j := 0 to m.col
      invariant cells == CellsText(row[..j])
    {
      RowOfAt(m, i, j);
      var x := m.data[Index(i, j, m.col)];
      CellsTextStep(row, j);
      cells := cells + IntToString(x) + " ";
    }
    assert row[..m.col] == row;
  }

  /** `Debug::fmt`: `Matrix(row=R, col=C, ` followed by the `Display` output and `)`. */
  function DebugText(m: Matrix): (d: string)
    requires Covers(m)
    ensures |d| > 11 && d[..11] == "Matrix(row=" && d[|d| - 1] == ')'
  {
    "Matrix(row=" + NatToString(m.row) + ", col=" + NatToString(m.col) + ", " + Render(m) + ")"
  }

  /** `Debug` is the header with both dimensions, then the braced comma-join of the row texts, then `)`. */
  lemma DebugIsHeaderAndBracedJoin(m: Matrix)
    requires Covers(m)
    ensures DebugText(m)
         == "Matrix(row=" + NatToString(m.row) + ", col=" + NatToString(m.col) + ", "
            + ("{" + JoinWith(RowTexts(m), ",") + "}") + ")"
  {
    RenderIsBracedJoin(m);
  }

  /** Where the fields sit in a `Debug` text with row numeral r, column numeral c and body t. */
  lemma DebugFields(r: string, c: string, t: string)
    ensures var d := "Matrix(row=" + r + ", col=" + c + ", " + t + ")";
      20 + |r| + |c| + |t| == |d| &&
      d[..11] == "Matrix(row=" && d[11..11 + |r|] == r && d[11 + |r|..17 + |r|] == ", col=" &&
      d[17 + |r|..17 + |r| + |c|] == c && d[17 + |r| + |c|..19 + |r| + |c|] == ", " &&
      d[19 + |r| + |c|..19 + |r| + |c| + |t|] == t
  {
    var d := "Matrix(row=" + r + ", col=" + c + ", " + t + ")";
    assert d == "Matrix(row=" + (r + (", col=" + (c + (", " + (t + ")")))));
  }

  /**
   The numerals in the `Debug` header are the decimal renderings of the row and
   column counts, which parse back to those counts; the text between the header
   and the final `)` is the `Display` output.
   */
  lemma DebugDimensionsParse(m: Matrix)
    requires Covers(m)
    ensures var d, r, c := DebugText(m), NatToString(m.row), NatToString(m.col);
      20 + |r| + |c| + |Render(m)| == |d| &&
      d[11..11 + |r|] == r && d[17 + |r|..17 + |r| + |c|] == c &&
      d[19 + |r| + |c|..|d| - 1] == Render(m)
    ensures AllDigits(NatToString(m.row)) && ParseNat(NatToString(m.row)) == m.row
    ensures AllDigits(NatToString(m.col)) && ParseNat(NatToString(m.col)) == m.col
  {
    var r, c, t := NatToString(m.row), NatToString(m.col), Render(m);
    assert DebugText(m) == "Matrix(row=" + r + ", col=" + c + ", " + t + ")";
    DebugFields(r, c, t);
    ParseNatToString(m.row);
    ParseNatToString(m.col);
  }

  /** The strings of `parts` with `sep` between consecutive ones. */
  function JoinWith(parts: seq<string>, sep: string): string {
    if |parts| == 0 then ""
    else if |parts| == 1 then parts[0]
    else JoinWith(parts[..|parts| - 1], sep) + sep + parts[|parts| - 1]
  }

  /** `Display` is the row texts joined by commas, in braces: no comma follows the last row. */
  lemma RenderIsBracedJoin(m: Matrix)
    requires Covers(m)
    ensures Render(m) == "{" + JoinWith(RowTexts(m), ",") + "}"
  {
    WrittenAll(RowTexts(m));
  }

  lemma WrittenAll(rows: seq<string>)
    ensures Written(rows, |rows|) == "{" + JoinWith(rows, ",")
  {
    var n := |rows|;
    if n == 1 {
      assert Written(rows, 1) == "{" + rows[0];
    } else if n > 1 {
      WrittenPrefix(rows, n - 1);
      var front := JoinWith(rows[..n - 1], ",");
      assert Written(rows, n - 1) == "{" + front + ",";
      assert Written(rows, n) == "{" + front + "," + rows[n - 1];
      assert JoinWith(rows, ",") == front + "," + rows[n - 1];
      BraceAssoc(front, rows[n - 1]);
    }
  }

  lemma BraceAssoc(front: string, last: string)
    ensures "{" + (front + "," + last) == "{" + front + "," + last
  {
  }

  /** Before the last row, what has been written is `{`, the rows joined so far, and one comma. */
  lemma {:induction false} WrittenPrefix(rows: seq<string>, n: nat)
    requires n < |rows|
    ensures Written(rows, n) == if n == 0 then "{" else "{" + JoinWith(rows[..n], ",") + ","
  {
    if n > 0 {
      WrittenPrefix(rows, n - 1);
      assert Written(rows, n) == Written(rows, n - 1) + rows[n - 1] + ",";
      if n == 1 {
        assert rows[..1] == [rows[0]];
      } else {
        var front := JoinWith(rows[..n - 1], ",");
        assert rows[..n][..n - 1] == rows[..n - 1];
        assert JoinWith(rows[..n], ",") == front + "," + rows[n - 1];
        CommaAssoc(front, rows[n - 1]);
      }
    }
  }

  lemma CommaAssoc(front: string, last: string)
    ensures "{" + front + "," + last + "," == "{" + (front + "," + last) + ","
  {
  }

  /** The number of occurrences of c in s. */
  function Occurrences(c: char, s: string): nat {
    if s == [] then 0 else Occurrences(c, s[..|s| - 1]) + (if s[|s| - 1] == c then 1 else 0)
  }

  lemma {:induction false} OccurrencesAppend(c: char, s: string, t: string)
    ensures Occurrences(c, s + t) == Occurrences(c, s) + Occurrences(c, t)
  {
    if t == [] {
      assert s + t == s;
    } else {
      OccurrencesAppend(c, s, t[..|t| - 1]);
      assert (s + t)[..|s + t| - 1] == s + t[..|t| - 1];
    }
  }

  lemma {:induction false} NumeralOccurrences(x: int, k: nat)
    requires k <= |IntToString(x)|
    ensures Occurrences(' ', IntToString(x)[..k]) == 0 && Occurrences(',', IntToString(x)[..k]) == 0
  {
    if k > 0 {
      NumeralOccurrences(x, k - 1);
      NumeralHasNoSeparator(x, k - 1);
      assert IntToString(x)[..k][..k - 1] == IntToString(x)[..k - 1];
    }
  }

  lemma NumeralCount(x: int, c: char)
    requires c == ' ' || c == ','
    ensures Occurrences(c, IntToString(x)) == 0
  {
    var s := IntToString(x);
    NumeralOccurrences(x, |s|);
    assert s[..|s|] == s;
  }

  lemma AppendCount(c: char, front: string, numeral: string, space: string)
    requires space == " "
    ensures Occurrences(c, front + numeral + space) == Occurrences(c, front) + Occurrences(c, numeral) + if c == ' ' then 1 else 0
  {
    OccurrencesAppend(c, front, numeral);
    OccurrencesAppend(c, front + numeral, space);
    assert space[..0] == [];
  }

  /** The elements of a row are written with one space each... */
  lemma {:induction false} CellsTextSpaces(xs: seq<int>)
    ensures Occurrences(' ', CellsText(xs)) == |xs|
  {
    if xs != [] {
      var x := xs[|xs| - 1];
      CellsTextSpaces(xs[..|xs| - 1]);
      NumeralCount(x, ' ');
      AppendCount(' ', CellsText(xs[..|xs| - 1]), IntToString(x), " ");
    }
  }

  /** ...and no comma. */
  lemma {:induction false} CellsTextCommas(xs: seq<int>)
    ensures Occurrences(',', CellsText(xs)) == 0
  {
    if xs != [] {
      var x := xs[|xs| - 1];
      CellsTextCommas(xs[..|xs| - 1]);
      NumeralCount(x, ',');
      AppendCount(',', CellsText(xs[..|xs| - 1]), IntToString(x), " ");
    }
  }

  /** Written rows hold the spaces of the rows and one comma after each row but the last. */
  lemma {:induction false} WrittenCount(rows: seq<string>, n: nat, c: char, perRow: nat)
    requires n <= |rows| && (c == ' ' || c == ',')
    requires forall i :: 0 <= i < |rows| ==> Occurrences(c, rows[i]) == perRow
    ensures Occurrences(c, Written(rows, n)) == Mul(n, perRow) + if c == ',' then (if n == |rows| && n > 0 then n - 1 else n) else 0
  {
    if n > 0 {
      WrittenCount(rows, n - 1, c, perRow);
      var sep := if n - 1 != |rows| - 1 then "," else "";
      assert Written(rows, n) == Written(rows, n - 1) + rows[n - 1] + sep;
      OccurrencesAppend(c, Written(rows, n - 1), rows[n - 1]);
      OccurrencesAppend(c, Written(rows, n - 1) + rows[n - 1], sep);
      assert Occurrences(c, sep) == if c == ',' && sep == "," then 1 else 0;
    } else {
      assert Occurrences(c, "{") == 0;
    }
  }

  /**
   `Display` puts exactly one space after each of the row * col elements and
   exactly row - 1 commas between the rows (none for an empty matrix).
   */
  lemma RenderCounts(m: Matrix)
    requires Covers(m)
    ensures Occurrences(' ', Render(m)) == m.row * m.col
    ensures Occurrences(',', Render(m)) == if m.row == 0 then 0 else m.row - 1
  {
    var rows := RowTexts(m);
    forall i | 0 <= i < |rows|
      ensures Occurrences(' ', rows[i]) == m.col && Occurrences(',', rows[i]) == 0
    {
      CellsTextSpaces(RowOf(m, i));
      CellsTextCommas(RowOf(m, i));
    }
    WrittenCount(rows, m.row, ' ', m.col);
    WrittenCount(rows, m.row, ',', 0);
    MulIsTimes(m.row, m.col);
    MulIsTimes(m.row, 0);
    OccurrencesAppend(' ', Written(rows, m.row), "}");
    OccurrencesAppend(',', Written(rows, m.row), "}");
  }

  lemma ExampleRows()
    ensures Covers(Matrix([22, 28, 49, 64], 2, 2))
    ensures RowTexts(Matrix([22, 28, 49, 64], 2, 2)) == ["22 28 ", "49 64 "]
  {
    var m := Matrix([22, 28, 49, 64], 2, 2);
    ExampleRowOf();
    ExampleNumerals();
    CellsPair(22, 28);
    CellsPair(49, 64);
    ExampleRowLiterals();
    var rows := RowTexts(m);
    assert rows[0] == "22 28 " && rows[1] == "49 64 ";
  }

  lemma ExampleRowLiterals()
    ensures "22" + " " + "28" + " " == "22 28 "
    ensures "49" + " " + "64" + " " == "49 64 "
  {
  }

  lemma ExampleRowOf()
    ensures Covers(Matrix([22, 28, 49, 64], 2, 2))
    ensures RowOf(Matrix([22, 28, 49, 64], 2, 2), 0) == [22, 28]
    ensures RowOf(Matrix([22, 28, 49, 64], 2, 2), 1) == [49, 64]
  {
    assert Mul(2, 2) == 4 && Mul(1, 2) == 2;
  }

  lemma ExampleNumerals()
    ensures IntToString(22) == "22" && IntToString(28) == "28"
    ensures IntToString(49) == "49" && IntToString(64) == "64"
  {
    assert NatToString(22) == NatToString(2) + "2";
    assert NatToString(28) == NatToString(2) + "8";
    assert NatToString(49) == NatToString(4) + "9";
    assert NatToString(64) == NatToString(6) + "4";
  }

  lemma CellsPair(x: int, y: int)
    ensures CellsText([x, y]) == IntToString(x) + " " + IntToString(y) + " "
  {
    assert [x, y][..1] == [x];
    assert [x][..0] == [];
    assert CellsText([x]) == "" + IntToString(x) + " ";
    assert "" + IntToString(x) + " " == IntToString(x) + " ";
  }

  /** The example product renders as `{22 28 ,49 64 }`. */
  lemma ExampleDisplay()
    ensures Covers(Matrix([22, 28, 49, 64], 2, 2))
    ensures Render(Matrix([22, 28, 49, 64], 2, 2)) == "{22 28 ,49 64 }"
  {
    ExampleRows();
    WrittenTwo("22 28 ", "49 64 ");
    ExampleDisplayLiteral();
  }

  lemma ExampleDisplayLiteral()
    ensures "{" + "22 28 " + "," + "49 64 " + "}" == "{22 28 ,49 64 }"
  {
  }

  lemma WrittenTwo(r0: string, r1: string)
    ensures Written([r0, r1], 2) + "}" == "{" + r0 + "," + r1 + "}"
  {
    assert Written([r0, r1], 1) == "{" + r0 + ",";
  }

  /** The example product debugs as `Matrix(row=2, col=2, {22 28 ,49 64 })`. */
  lemma ExampleDebug()
    ensures Covers(Matrix([22, 28, 49, 64], 2, 2))
    ensures DebugText(Matrix([22, 28, 49, 64], 2, 2)) == "Matrix(row=2, col=2, {22 28 ,49 64 })"
  {
    ExampleDisplay();
    ExampleDebugHeader();
    ExampleDebugJoin("Matrix(row=2, col=2, ", Render(Matrix([22, 28, 49, 64], 2, 2)));
  }

  lemma ExampleDebugJoin(header: string, display: string)
    requires header == "Matrix(row=2, col=2, " && display == "{22 28 ,49 64 }"
    ensures header + display + ")" == "Matrix(row=2, col=2, {22 28 ,49 64 })"
  {
  }

  lemma ExampleDebugHeader()
    ensures "Matrix(row=" + NatToString(2) + ", col=" + NatToString(2) + ", " == "Matrix(row=2, col=2, "
  {
    assert NatToString(2) == "2";
    assert "Matrix(row=" + "2" == "Matrix(row=2";
    assert "Matrix(row=2" + ", col=" + "2" == "Matrix(row=2, col=2";
  }

}
