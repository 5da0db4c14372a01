/** The encoding direction of the R900 code: parity by Gaussian elimination, in place. */
module R900Encoder {
  import opened Wrappers
  import opened Gf2Poly
  import opened FieldTheory
  import opened GaloisField
  import opened ReedSolomon
  import opened LinearSystem
  import opened R900Code

  // ----- the system of equations -----

  /** The powers of a root that multiply n coefficients, leading first. */
  function PowerRow(x: nat, n: nat, m: nat): (r: seq<nat>)
    ensures |r| == n && forall t :: 0 <= t < n ==> r[t] == Power(x, n - 1 - t, m)
  {
    seq(n, t requires 0 <= t < n => Power(x, n - 1 - t, m))
  }

  lemma {:induction false} PowerRowDot(w: seq<nat>, x: nat, m: nat)
    ensures Dot(PowerRow(x, |w|, m), w, m) == PolyEval(w, x, m)
  {
    hide Times, Xor, Power;
    if w != [] {
      PowerRowDot(w[1..], x, m);
      assert PowerRow(x, |w|, m)[1..] == PowerRow(x, |w| - 1, m);
      TimesComm(Power(x, |w| - 1, m), w[0], m);
    }
  }

  function Root(j: nat): nat {
    Power(ALPHA, OFFSET + j, MODULUS)
  }

  /** Row j asks that the parity cancels the data's contribution d[j] to syndrome j. */
  function System(d: seq<nat>): (rows: seq<seq<nat>>)
    requires |d| == PARITY
    ensures |rows| == PARITY && forall j :: 0 <= j < PARITY ==> rows[j] == PowerRow(Root(j), PARITY, MODULUS) + [d[j]]
  {
    seq(PARITY, j requires 0 <= j < PARITY => PowerRow(Root(j), PARITY, MODULUS) + [d[j]])
  }

  /** Contribution of the data symbols alone to syndrome j. */
  function DataPart(data: seq<Byte>, j: nat): nat
    requires |data| == 16
  {
    RootValue(data + Zeros(15), ALPHA, OFFSET, j, MODULUS)
  }

  function DataParts(data: seq<Byte>): (d: seq<nat>)
    requires |data| == 16
    ensures |d| == PARITY && forall j :: 0 <= j < PARITY ==> d[j] == DataPart(data, j)
  {
    seq(PARITY, j requires 0 <= j < PARITY => DataPart(data, j))
  }

  lemma SystemMatrix(d: seq<nat>)
    requires |d| == PARITY && Elems(d, MODULUS)
    ensures Matrix(System(d), 6, MODULUS)
  {
    ModulusIrreducible();
    hide Power;
    forall j | 0 <= j < PARITY
      ensures Elems(System(d)[j], MODULUS)
    {
      forall t | 0 <= t < PARITY
        ensures Elem(System(d)[j][t], MODULUS)
      {
        PowerElem(Root(j), 4 - t, MODULUS);
      }
    }
  }

  /** Row j evaluates the candidate parity at root j and adds the constant times d[j]. */
  lemma SystemDot(d: seq<nat>, q: seq<nat>, c: nat, j: nat)
    requires |d| == PARITY && |q| == PARITY && j < PARITY
    ensures Dot(System(d)[j], q + [c], MODULUS)
         == Xor(RootValue(q, ALPHA, OFFSET, j, MODULUS), Times(d[j], c, MODULUS))
  {
    hide Times, Xor, Power, PolyEval, Dot;
    DotConcat(PowerRow(Root(j), PARITY, MODULUS), [d[j]], q, [c], MODULUS);
    PowerRowDot(q, Root(j), MODULUS);
    DotUnit([d[j]], [c], 0, MODULUS);
  }

  lemma {:induction false} LeadingZeros(n: nat, w: seq<nat>, x: nat, m: nat)
    requires m > 0
    ensures PolyEval(Zeros(n) + w, x, m) == PolyEval(w, x, m)
  {
    hide Times, Xor, Power;
    if n == 0 {
      assert Zeros(0) + w == w;
    } else {
      LeadingZeros(n - 1, w, x, m);
      assert (Zeros(n) + w)[1..] == Zeros(n - 1) + w;
      TimesUnits(Power(x, n - 1 + |w|, m), m);
      XorZero(PolyEval(w, x, m));
    }
  }

  /** The word splits into its data part and its parity part. */
  lemma WordSplits(data: seq<Byte>, p: seq<Byte>, j: nat)
    requires |data| == 16 && |p| == PARITY
    ensures RootValue(Word31(data + p), ALPHA, OFFSET, j, MODULUS)
         == Xor(DataPart(data, j), RootValue(p, ALPHA, OFFSET, j, MODULUS))
  {
    hide Times, Xor, Power, PolyEval;
    var u: seq<nat>, v: seq<nat> := data + Zeros(15), Zeros(26) + p;
    assert (data + p)[..16] == data && (data + p)[16..] == p;
    WordSum(data, p);
    DifferenceEval(u, v, Root(j), MODULUS);
    LeadingZeros(26, p, Root(j), MODULUS);
  }

  lemma WordSum(data: seq<Byte>, p: seq<Byte>)
    requires |data| == 16 && |p| == PARITY
    ensures Word31(data + p) == Difference(data + Zeros(15), Zeros(26) + p)
  {
    var u: seq<nat>, v: seq<nat> := data + Zeros(15), Zeros(26) + p;
    assert (data + p)[..16] == data && (data + p)[16..] == p;
    var w := Word31(data + p);
    forall i | 0 <= i < 31
      ensures w[i] == Xor(u[i], v[i])
    {
      XorZero(w[i]);
      if i < 26 {
        assert v[i] == 0 && u[i] == w[i];
      } else {
        assert u[i] == 0 && v[i] == w[i];
      }
    }
  }

  lemma {:induction false} PolyEvalElem(w: seq<nat>, x: nat, m: nat)
    requires m > 0
    ensures Elem(PolyEval(w, x, m), m)
  {
    hide Times, Xor, Power;
    if w != [] {
      TimesElem(w[0], Power(x, |w| - 1, m), m);
      PolyEvalElem(w[1..], x, m);
      NBitXor(Times(w[0], Power(x, |w| - 1, m), m), PolyEval(w[1..], x, m));
    }
  }

  /** The parity symbols that complete the data are exactly the solutions of the system with last
      component one. */
  lemma SolutionIsParity(data: seq<Byte>, p: seq<Byte>)
    requires |data| == 16 && |p| == PARITY
    ensures Elems(DataParts(data), MODULUS) && Matrix(System(DataParts(data)), 6, MODULUS)
    ensures Solves(System(DataParts(data)), p + [1], MODULUS) <==> Accepted(data + p)
  {
    hide Times, Xor, Power, PolyEval, Dot;
    var d := DataParts(data);
    forall j | 0 <= j < PARITY
      ensures Elem(d[j], MODULUS)
    {
      PolyEvalElem(data + Zeros(15), Root(j), MODULUS);
    }
    SystemMatrix(d);
    forall j | 0 <= j < PARITY
      ensures Dot(System(d)[j], p + [1], MODULUS) == RootValue(Word31(data + p), ALPHA, OFFSET, j, MODULUS)
    {
      SystemDot(d, p, 1, j);
      TimesUnits(d[j], MODULUS);
      WordSplits(data, p, j);
      XorComm(DataPart(data, j), RootValue(p, ALPHA, OFFSET, j, MODULUS));
    }
  }

  /** The homogeneous system has only the zero solution: a short word cannot vanish at five
      consecutive roots. */
  lemma NoFreeColumn(d: seq<nat>, q: seq<nat>)
    requires |d| == PARITY && |q| == PARITY && Elems(d, MODULUS) && Elems(q, MODULUS)
    requires Matrix(System(d), 6, MODULUS) && Solves(System(d), q + [0], MODULUS)
    ensures forall k :: 0 <= k < PARITY ==> q[k] == 0
  {
    hide Times, Xor, Power, PolyEval, Dot, Weight, Splits;
    R900FieldExists();
    forall j | 0 <= j < PARITY
      ensures RootValue(q, ALPHA, OFFSET, j, MODULUS) == 0
    {
      SystemDot(d, q, 0, j);
      TimesUnits(d[j], MODULUS);
      XorZero(RootValue(q, ALPHA, OFFSET, j, MODULUS));
    }
    WeightBound(q);
    LightWordRejected(q, ALPHA, OFFSET, PARITY, 31, MODULUS);
  }

  lemma {:induction false} WeightBound(y: seq<nat>)
    ensures Weight(y) <= |y|
  {
    if y != [] {
      WeightBound(y[1..]);
    }
  }

  // ----- elimination -----

  ghost predicate Shape(m: array2<Byte>) {
    m.Length0 == 5 && m.Length1 == 6
  }

  ghost predicate SmallEntries(m: array2<Byte>)
    reads m
  {
    Shape(m) && forall r, k :: 0 <= r < 5 && 0 <= k < 6 ==> m[r, k] < 32
  }

  ghost function Row(m: array2<Byte>, r: nat): (row: seq<nat>)
    requires Shape(m) && r < 5
    reads m
    ensures |row| == 6 && forall k :: 0 <= k < 6 ==> row[k] == m[r, k]
  {
    [m[r, 0], m[r, 1], m[r, 2], m[r, 3], m[r, 4], m[r, 5]]
  }

  ghost function Rows(m: array2<Byte>): (rows: seq<seq<nat>>)
    requires Shape(m)
    reads m
    ensures |rows| == 5 && forall r :: 0 <= r < 5 ==> rows[r] == Row(m, r)
  {
    [Row(m, 0), Row(m, 1), Row(m, 2), Row(m, 3), Row(m, 4)]
  }

  ghost predicate R900Tables(f: Field) {
    Tables(f, ALPHA, MODULUS) && f.order == 31
  }

  lemma SmallMatrix(m: array2<Byte>)
    requires SmallEntries(m)
    ensures Matrix(Rows(m), 6, MODULUS)
  {
    forall r | 0 <= r < 5
      ensures Elems(Row(m, r), MODULUS)
    {
      FiveBits(Row(m, r));
    }
  }

  /** The matrix after row r was rewritten entry by entry. */
  lemma OneRow(m: array2<Byte>, rows: seq<seq<nat>>, r: nat, row: seq<nat>)
    requires Shape(m) && r < 5 && |row| == 6 && |rows| == 5 && forall i :: 0 <= i < 5 ==> |rows[i]| == 6
    requires forall j :: 0 <= j < 6 ==> m[r, j] == row[j]
    requires forall i, j :: 0 <= i < 5 && i != r && 0 <= j < 6 ==> m[i, j] == rows[i][j]
    ensures Rows(m) == rows[r := row]
  {
    hide Row, Rows;
    forall i | 0 <= i < 5
      ensures Row(m, i) == rows[r := row][i]
    {
    }
  }

  /** Scales the pivot row; its entries before col are zero, so scaling from col on scales it all. */
  method ScalePivotRow(f: Field, m: array2<Byte>, col: nat, inv: Byte)
    requires R900Tables(f) && SmallEntries(m) && col < 5 && inv < 32
    requires forall k :: 0 <= k < col ==> m[col, k] == 0
    modifies m
    ensures SmallEntries(m)
    ensures Rows(m) == old(Rows(m))[col := ScaledRow(old(Rows(m))[col], inv, MODULUS)]
  {
    hide Times, R900Tables, Field.Mul, Field.Sized, NBit, Row, Rows, ScaledRow;
    ghost var rows := Rows(m);
    ghost var scaled := ScaledRow(rows[col], inv, MODULUS);
    forall k | 0 <= k < col
      ensures scaled[k] == 0
    {
      TimesUnits(inv, MODULUS);
    }
    var k := col;
    while k < 6
      invariant col <= k <= 6 && SmallEntries(m)
      invariant forall j :: 0 <= j < k ==> m[col, j] == scaled[j]
      invariant forall j :: k <= j < 6 ==> m[col, j] == rows[col][j]
      invariant forall r, j :: 0 <= r < 5 && r != col && 0 <= j < 6 ==> m[r, j] == rows[r][j]
    {
      MulR900(f, m[col, k], inv);
      m[col, k] := f.Mul(m[col, k], inv);
      k := k + 1;
    }
    OneRow(m, rows, col, scaled);
  }

  lemma MulR900(f: Field, x: Byte, y: Byte)
    requires R900Tables(f) && x < 32 && y < 32
    ensures f.Sized() && f.order == 31 && f.Mul(x, y) == Times(x, y, MODULUS) < 32
  {
    MulAgrees(f, ALPHA, MODULUS, x, y);
  }

  lemma CombineEntry(f: Field, x: Byte, factor: Byte, y: Byte)
    requires R900Tables(f) && x < 32 && factor < 32 && y < 32
    ensures f.Sized() && f.order == 31 && Xor(x, f.Mul(factor, y)) == Xor(x, Times(factor, y, MODULUS)) < 32
  {
    hide Times, Xor, NBit, Tables;
    MulR900(f, factor, y);
    AddInRange(f, ALPHA, MODULUS, x, f.Mul(factor, y));
  }

  /** Adds a multiple of the pivot row to another row, from col on. */
  method CombineRow(f: Field, m: array2<Byte>, row: nat, col: nat, factor: Byte)
    requires R900Tables(f) && SmallEntries(m) && col < 5 && row < 5 && row != col && factor < 32
    requires forall k :: 0 <= k < col ==> m[col, k] == 0
    modifies m
    ensures SmallEntries(m)
    ensures Rows(m) == old(Rows(m))[row := CombinedRow(old(Rows(m))[row], factor, old(Rows(m))[col], MODULUS)]
  {
    hide Times, Xor, R900Tables, Field.Mul, Field.Sized, NBit, Row, Rows, CombinedRow;
    ghost var rows := Rows(m);
    ghost var combined := CombinedRow(rows[row], factor, rows[col], MODULUS);
    forall k | 0 <= k < col
      ensures combined[k] == rows[row][k]
    {
      TimesUnits(factor, MODULUS);
      XorZero(rows[row][k]);
    }
    var k := col;
    while k < 6
      invariant col <= k <= 6 && SmallEntries(m)
      invariant forall j :: 0 <= j < k ==> m[row, j] == combined[j]
      invariant forall j :: k <= j < 6 ==> m[row, j] == rows[row][j]
      invariant forall r, j :: 0 <= r < 5 && r != row && 0 <= j < 6 ==> m[r, j] == rows[r][j]
    {
      CombineEntry(f, m[row, k], factor, m[col, k]);
      m[row, k] := Xor(m[row, k], f.Mul(factor, m[col, k]));
      k := k + 1;
    }
    OneRow(m, rows, row, combined);
  }

  method StoreRow(m: array2<Byte>, r: nat, row: seq<Byte>)
    requires SmallEntries(m) && r < 5 && |row| == 6 && forall k :: 0 <= k < 6 ==> row[k] < 32
    modifies m
    ensures SmallEntries(m)
    ensures Rows(m) == old(Rows(m))[r := row]
  {
    hide Row, Rows;
    ghost var rows := Rows(m);
    var k := 0;
    while k < 6
      invariant 0 <= k <= 6 && SmallEntries(m)
      invariant forall t :: 0 <= t < k ==> m[r, t] == row[t]
      invariant forall i, t :: 0 <= i < 5 && i != r && 0 <= t < 6 ==> m[i, t] == rows[i][t]
    {
      m[r, k] := row[k];
      k := k + 1;
    }
    OneRow(m, rows, r, row);
  }

  method SwapRows(m: array2<Byte>, i: nat, j: nat)
    requires SmallEntries(m) && i < 5 && j < 5
    modifies m
    ensures SmallEntries(m)
    ensures Rows(m) == old(Rows(m))[i := old(Rows(m))[j]][j := old(Rows(m))[i]]
  {
    var a := [m[i, 0], m[i, 1], m[i, 2], m[i, 3], m[i, 4], m[i, 5]];
    var b := [m[j, 0], m[j, 1], m[j, 2], m[j, 3], m[j, 4], m[j, 5]];
    assert a == Row(m, i) && b == Row(m, j);
    StoreRow(m, i, b);
    StoreRow(m, j, a);
  }

  lemma SameTrans(a: seq<seq<nat>>, b: seq<seq<nat>>, c: seq<seq<nat>>, width: nat, m: nat)
    requires Matrix(a, width, m) && Matrix(b, width, m) && Matrix(c, width, m)
    requires SameSolutions(a, b, width, m) && SameSolutions(b, c, width, m)
    ensures SameSolutions(a, c, width, m)
  {
    hide Solves;
  }

  /** Brings a pivot into place and makes it one. */
  lemma PivotReady(rows: seq<seq<nat>>, rows1: seq<seq<nat>>, rows2: seq<seq<nat>>, col: nat, pivot: nat, inv: nat)
    requires |rows| == 5 && Matrix(rows, 6, MODULUS) && Reduced(rows, col) && col <= pivot < 5
    requires rows1 == rows[col := rows[pivot]][pivot := rows[col]]
    requires rows2 == rows1[col := ScaledRow(rows1[col], inv, MODULUS)]
    requires Elem(inv, MODULUS) && inv != 0 && Times(rows1[col][col], inv, MODULUS) == 1
    ensures Matrix(rows2, 6, MODULUS) && SameSolutions(rows, rows2, 6, MODULUS)
    ensures Reduced(rows2, col) && rows2[col][col] == 1
  {
    hide Times, Xor, Solves, Splits, NBit;
    R900FieldExists();
    SwapKeeps(rows, col, pivot, 6, MODULUS);
    ScaleKeeps(rows1, col, inv, 6, MODULUS);
    SameTrans(rows, rows1, rows2, 6, MODULUS);
    TimesUnits(inv, MODULUS);
  }

  /** Clearing one row keeps the reduced columns and the pivot row. */
  lemma RowCleared(rows: seq<seq<nat>>, row: nat, col: nat)
    requires |rows| == 5 && Matrix(rows, 6, MODULUS) && Reduced(rows, col) && row < 5 && col < 5 && row != col
    requires rows[col][col] == 1
    ensures var rows' := rows[row := CombinedRow(rows[row], rows[row][col], rows[col], MODULUS)];
            && Matrix(rows', 6, MODULUS) && SameSolutions(rows, rows', 6, MODULUS)
            && Reduced(rows', col) && rows'[row][col] == 0
  {
    hide Times, Xor, Solves, Dot;
    var c := rows[row][col];
    CombineKeeps(rows, row, c, col, 6, MODULUS);
    TimesUnits(c, MODULUS);
    XorSelf(c);
    forall k | 0 <= k < col
      ensures Xor(rows[row][k], Times(c, rows[col][k], MODULUS)) == rows[row][k]
    {
      XorZero(rows[row][k]);
    }
  }

  lemma SwappedRow(rows: seq<seq<nat>>, rows1: seq<seq<nat>>, col: nat, pivot: nat)
    requires |rows| == 5 && Reduced(rows, col) && col <= pivot < 5 && |rows[pivot]| == 6
    requires rows1 == rows[col := rows[pivot]][pivot := rows[col]]
    ensures rows1[col] == rows[pivot]
    ensures forall k :: 0 <= k < col ==> rows1[col][k] == 0
  {
  }

  /** Makes the leading entry of row col one. */
  method NormalizeRow(f: Field, m: array2<Byte>, col: nat) returns (inv: Byte)
    requires R900Tables(f) && SmallEntries(m) && col < 5 && Rows(m)[col][col] != 0
    requires forall k :: 0 <= k < col ==> Rows(m)[col][k] == 0
    modifies m
    ensures SmallEntries(m) && Elem(inv, MODULUS) && inv != 0
    ensures Times(old(Rows(m))[col][col], inv, MODULUS) == 1
    ensures Rows(m) == old(Rows(m))[col := ScaledRow(old(Rows(m))[col], inv, MODULUS)]
  {
    hide Times, Tables, NBit;
    InvR900(f, m[col, col]);
    inv := f.Inv(m[col, col]);
    ScalePivotRow(f, m, col, inv);
  }

  /** Swaps the pivot into place and scales it to one. */
  method PlacePivot(f: Field, m: array2<Byte>, col: nat, pivot: nat)
    requires R900Tables(f) && SmallEntries(m) && col <= pivot < 5 && Reduced(Rows(m), col)
    requires Rows(m)[pivot][col] != 0
    modifies m
    ensures SmallEntries(m) && Matrix(Rows(m), 6, MODULUS) && Matrix(old(Rows(m)), 6, MODULUS)
    ensures Reduced(Rows(m), col) && Rows(m)[col][col] == 1
    ensures SameSolutions(old(Rows(m)), Rows(m), 6, MODULUS)
  {
    SmallMatrix(m);
    hide Times, R900Tables, SameSolutions, NBit, ScaledRow, Matrix, Row, Rows, Reduced;
    ghost var rows := Rows(m);
    SwapRows(m, col, pivot);
    ghost var rows1 := Rows(m);
    SwappedRow(rows, rows1, col, pivot);
    var inv := NormalizeRow(f, m, col);
    PivotReady(rows, rows1, Rows(m), col, pivot, inv);
  }

  lemma NoPivot(m: array2<Byte>, col: nat)
    requires Shape(m) && col < 5 && forall r :: col <= r < 5 ==> m[r, col] == 0
    ensures forall r :: col <= r < 5 ==> |Rows(m)[r]| == 6 && Rows(m)[r][col] == 0
  {
  }

  /** First row from col on with a non-zero entry in column col, or 5. */
  method FindPivot(m: array2<Byte>, col: nat) returns (pivot: nat)
    requires Shape(m) && col < 5
    ensures col <= pivot <= 5 && forall r :: col <= r < pivot ==> m[r, col] == 0
    ensures pivot < 5 ==> m[pivot, col] != 0
  {
    pivot := col;
    while pivot < 5 && m[pivot, col] == 0
      invariant col <= pivot <= 5
      invariant forall r :: col <= r < pivot ==> m[r, col] == 0
    {
      pivot := pivot + 1;
    }
  }

  /** One column of the elimination. Without a pivot nothing changes; otherwise the column becomes a
      unit column and the solutions stay the same. */
  method ReduceColumn(f: Field, m: array2<Byte>, col: nat) returns (ok: bool)
    requires R900Tables(f) && SmallEntries(m) && col < 5 && Reduced(Rows(m), col)
    modifies m
    ensures SmallEntries(m) && Matrix(Rows(m), 6, MODULUS) && Matrix(old(Rows(m)), 6, MODULUS)
    ensures ok ==> Reduced(Rows(m), col + 1) && SameSolutions(old(Rows(m)), Rows(m), 6, MODULUS)
    ensures !ok ==> Rows(m) == old(Rows(m)) && forall r :: col <= r < 5 ==> Rows(m)[r][col] == 0
  {
    SmallMatrix(m);
    var pivot := FindPivot(m, col);
    if pivot == 5 {
      NoPivot(m, col);
      return false;
    }
    hide Times, Xor, Tables, SameSolutions, Splits, NBit, Elems, Matrix, Row, Rows;
    ghost var rows := Rows(m);
    PlacePivot(f, m, col, pivot);
    ClearColumn(f, m, col, rows);
    return true;
  }

  lemma InvR900(f: Field, x: Byte)
    requires R900Tables(f) && 0 < x < 32
    ensures f.Sized() && 0 < f.Inv(x) < 32 && Elem(f.Inv(x), MODULUS) && Times(x, f.Inv(x), MODULUS) == 1
  {
    InvAgrees(f, ALPHA, MODULUS, x);
    ByteElem(f, ALPHA, MODULUS, f.Inv(x));
  }

  lemma Entry(m: array2<Byte>, r: nat, k: nat)
    requires SmallEntries(m) && r < 5 && k < 6
    ensures Shape(m) && |Rows(m)| == 5 && |Rows(m)[r]| == 6 && Rows(m)[r][k] == m[r, k] < 32
  {
  }

  /** Column col is cleared in all rows before row except the pivot's. */
  ghost predicate Cleared(rows0: seq<seq<nat>>, rows: seq<seq<nat>>, row: nat, col: nat)
    requires Matrix(rows0, 6, MODULUS) && col < 5
  {
    && |rows| == 5 && Matrix(rows, 6, MODULUS) && SameSolutions(rows0, rows, 6, MODULUS)
    && Reduced(rows, col) && rows[col][col] == 1
    && forall r :: 0 <= r < row && r < 5 && r != col ==> rows[r][col] == 0
  }

  lemma ClearRow(rows0: seq<seq<nat>>, rows: seq<seq<nat>>, row: nat, col: nat)
    requires Matrix(rows0, 6, MODULUS) && row < 5 && col < 5 && row != col && Cleared(rows0, rows, row, col)
    ensures |rows[row]| == |rows[col]| == 6
    ensures Cleared(rows0, rows[row := CombinedRow(rows[row], rows[row][col], rows[col], MODULUS)], row + 1, col)
  {
    hide SameSolutions, CombinedRow, Elems, Reduced;
    RowCleared(rows, row, col);
    var rows' := rows[row := CombinedRow(rows[row], rows[row][col], rows[col], MODULUS)];
    SameTrans(rows0, rows, rows', 6, MODULUS);
  }

  lemma ClearSkip(rows0: seq<seq<nat>>, rows: seq<seq<nat>>, row: nat, col: nat)
    requires Matrix(rows0, 6, MODULUS) && row < 5 && col < 5 && Cleared(rows0, rows, row, col)
    requires row == col || (|rows[row]| == 6 && rows[row][col] == 0)
    ensures Cleared(rows0, rows, row + 1, col)
  {
    hide SameSolutions, Elems, Reduced;
  }

  lemma ClearStart(rows0: seq<seq<nat>>, rows: seq<seq<nat>>, col: nat)
    requires Matrix(rows0, 6, MODULUS) && |rows| == 5 && Matrix(rows, 6, MODULUS) && col < 5
    requires SameSolutions(rows0, rows, 6, MODULUS) && Reduced(rows, col) && rows[col][col] == 1
    ensures Cleared(rows0, rows, 0, col)
  {
    hide SameSolutions, Elems, Reduced;
  }

  lemma ClearEnd(rows0: seq<seq<nat>>, rows: seq<seq<nat>>, col: nat)
    requires Matrix(rows0, 6, MODULUS) && col < 5 && Cleared(rows0, rows, 5, col)
    ensures |rows| == 5 && Matrix(rows, 6, MODULUS) && SameSolutions(rows0, rows, 6, MODULUS) && Reduced(rows, col + 1)
  {
    hide SameSolutions, Elems;
  }

  lemma PivotZeros(m: array2<Byte>, rows0: seq<seq<nat>>, row: nat, col: nat)
    requires Shape(m) && Matrix(rows0, 6, MODULUS) && row < 5 && col < 5 && Cleared(rows0, Rows(m), row, col)
    ensures forall k :: 0 <= k < col ==> m[col, k] == 0
  {
    hide SameSolutions, Elems;
  }

  /** Subtracts multiples of the pivot row from all other rows. */
  method ClearColumn(f: Field, m: array2<Byte>, col: nat, ghost rows0: seq<seq<nat>>)
    requires R900Tables(f) && SmallEntries(m) && col < 5
    requires Matrix(rows0, 6, MODULUS) && Matrix(Rows(m), 6, MODULUS)
    requires SameSolutions(rows0, Rows(m), 6, MODULUS)
    requires Reduced(Rows(m), col) && Rows(m)[col][col] == 1
    modifies m
    ensures SmallEntries(m) && Matrix(Rows(m), 6, MODULUS)
    ensures SameSolutions(rows0, Rows(m), 6, MODULUS) && Reduced(Rows(m), col + 1)
  {
    hide *;
    Entry(m, col, col);
    ClearStart(rows0, Rows(m), col);
    var row := 0;
    while row < 5
      invariant 0 <= row <= 5 && SmallEntries(m) && Shape(m) && Cleared(rows0, Rows(m), row, col)
    {
      ghost var rows := Rows(m);
      Entry(m, row, col);
      if row != col && m[row, col] != 0 {
        PivotZeros(m, rows0, row, col);
        ClearRow(rows0, rows, row, col);
        CombineRow(f, m, row, col, m[row, col]);
        Entry(m, row, col);
      } else {
        ClearSkip(rows0, rows, row, col);
      }
      row := row + 1;
    }
    ClearEnd(rows0, Rows(m), col);
  }

  /** Fills the coefficient matrix and the right-hand side. */
  method FillSystem(f: Field, m: array2<Byte>, d: seq<Byte>)
    requires R900Tables(f) && Shape(m) && |d| == PARITY && forall j :: 0 <= j < PARITY ==> d[j] < 32
    modifies m
    ensures SmallEntries(m) && Rows(m) == System(d)
  {
    hide Times, R900Tables, Power, Field.Exp, Row, Rows;
    var j := 0;
    while j < 5
      invariant 0 <= j <= 5
      invariant forall r, k :: 0 <= r < j && 0 <= k < 6 ==> m[r, k] == System(d)[r][k] < 32
    {
      var t := 0;
      while t < 5
        invariant 0 <= t <= 5
        invariant forall r, k :: 0 <= r < j && 0 <= k < 6 ==> m[r, k] == System(d)[r][k] < 32
        invariant forall k :: 0 <= k < t ==> m[j, k] == System(d)[j][k] < 32
      {
        EntryIsPower(f, j, 4 - t);
        m[j, t] := f.Exp((29 + j) * (4 - t));
        t := t + 1;
      }
      m[j, 5] := d[j];
      j := j + 1;
    }
    RowsEqual(m, System(d));
  }

  lemma RowsEqual(m: array2<Byte>, rows: seq<seq<nat>>)
    requires Shape(m) && |rows| == 5 && forall r :: 0 <= r < 5 ==> |rows[r]| == 6
    requires forall r, k :: 0 <= r < 5 && 0 <= k < 6 ==> m[r, k] == rows[r][k]
    ensures Rows(m) == rows
  {
    forall r | 0 <= r < 5
      ensures Rows(m)[r] == rows[r]
    {
      assert Row(m, r) == rows[r];
    }
  }

  lemma EntryIsPower(f: Field, j: nat, n: nat)
    requires R900Tables(f)
    ensures f.Sized() && f.Exp((29 + j) * n) == Power(Root(j), n, MODULUS) < 32
  {
    hide Times, Power, Field.Exp;
    var e: nat := (29 + j) * n;
    ExpAgrees(f, ALPHA, MODULUS, e);
    PowerOfPower(ALPHA, 29 + j, n, MODULUS);
    ScaledIsProduct(29 + j, n);
  }

  /** A missing pivot would give a non-zero solution of the homogeneous system, which has none. */
  lemma PivotExists(d: seq<nat>, rows: seq<seq<nat>>, col: nat)
    requires |d| == PARITY && Elems(d, MODULUS) && Matrix(System(d), 6, MODULUS)
    requires |rows| == 5 && Matrix(rows, 6, MODULUS) && col < 5 && Reduced(rows, col)
    requires SameSolutions(System(d), rows, 6, MODULUS)
    ensures exists r :: col <= r < 5 && rows[r][col] != 0
  {
    hide Dot, Power, Splits;
    R900FieldExists();
    var z := FreeVector(rows, col, 6);
    assert z == z[..5] + [0] && z[..5][col] == 1;
    if forall r :: col <= r < 5 ==> rows[r][col] == 0 {
      NoPivotSolves(rows, col, 6, MODULUS);
      NoFreeColumn(d, z[..5]);
      assert false;
    }
  }

  /** The last column of the reduced system is the parity. */
  lemma ReducedIsParity(data: seq<Byte>, rows: seq<seq<nat>>, parity: seq<Byte>)
    requires |data| == 16 && |parity| == 5 && |rows| == 5
    requires Matrix(rows, 6, MODULUS) && Reduced(rows, 5)
    requires forall t :: 0 <= t < 5 ==> parity[t] == rows[t][5]
    requires Matrix(System(DataParts(data)), 6, MODULUS)
    requires SameSolutions(System(DataParts(data)), rows, 6, MODULUS)
    ensures Accepted(data + parity)
  {
    hide Dot, Power, Codeword;
    ModulusIrreducible();
    var z: seq<nat> := parity + [1];
    assert NBit(1) == 1;
    assert Elems(z, MODULUS);
    ReducedSolves(rows, z, MODULUS);
    SolutionIsParity(data, parity);
  }

  lemma DataSyndromes(data: seq<Byte>, d: Result<seq<Byte>>)
    requires |data| == 16
    requires d.Ok? && |d.value| == 5
    requires forall j :: 0 <= j < 5 ==> d.value[j] == RootValue(data + Zeros(15), ALPHA, OFFSET, j, MODULUS)
    ensures d.value == DataParts(data)
  {
    hide PolyEval;
  }

  /** The elimination: it succeeds on every system of the code, completely reducing it. */
  method Eliminate(f: Field, m: array2<Byte>, ghost d: seq<Byte>) returns (ok: bool)
    requires R900Tables(f) && |d| == PARITY && Elems(d, MODULUS)
    requires SmallEntries(m) && Rows(m) == System(d) && Matrix(System(d), 6, MODULUS)
    modifies m
    ensures ok && SmallEntries(m) && Matrix(Rows(m), 6, MODULUS) && Reduced(Rows(m), 5)
    ensures SameSolutions(System(d), Rows(m), 6, MODULUS)
  {
    hide Times, Power, Matrix, SameSolutions, Elems, Row, Rows, Reduced, System, R900Tables;
    SameRefl(System(d));
    ReducedStart(Rows(m));
    var col := 0;
    while col < 5
      invariant 0 <= col <= 5 && SmallEntries(m)
      invariant Matrix(Rows(m), 6, MODULUS) && Reduced(Rows(m), col)
      invariant SameSolutions(System(d), Rows(m), 6, MODULUS)
    {
      ghost var rows := Rows(m);
      PivotExists(d, rows, col);
      ok := ReduceColumn(f, m, col);
      if !ok {
        assert false;
        return false;
      }
      SameTrans(System(d), rows, Rows(m), 6, MODULUS);
      col := col + 1;
    }
    return true;
  }

  /** Parity for 16 data symbols. The elimination never meets a missing pivot and the final check
      never fails, so a result is always returned, and it completes the data to an accepted word. */
  method EncodeParity(f: Field, data: seq<Byte>) returns (r: Result<seq<Byte>>)
    requires R900Tables(f) && |data| == 16 && forall i :: 0 <= i < 16 ==> data[i] < 32
    ensures r.Ok? && |r.value| == 5 && Symbols(data + r.value) && Accepted(data + r.value)
  {
    hide Times, Power, Matrix, SameSolutions, Elems, PolyEval, Row, Rows, Reduced, System, DataPart;
    var msg := data + Zeros(15);
    var d := Syndrome(f, msg, 5, 29, ALPHA, MODULUS);
    assert d.Ok? && d.value == DataParts(data) by {
      DataSyndromes(data, d);
    }
    FiveBits(d.value);
    SystemMatrix(d.value);
    var m := new Byte[5, 6];
    FillSystem(f, m, d.value);
    var ok := Eliminate(f, m, d.value);
    if !ok {
      assert false;
      return Panic;
    }
    var parity := [m[0, 5], m[1, 5], m[2, 5], m[3, 5], m[4, 5]];
    ReducedIsParity(data, Rows(m), parity);
    var check := Syndrome(f, Word31(data + parity), 5, 29, ALPHA, MODULUS);
    if check.Panic? || exists j :: 0 <= j < 5 && check.value[j] != 0 {
      assert false;
      return Panic;
    }
    return Ok(parity);
  }

  lemma SameRefl(rows: seq<seq<nat>>)
    requires Matrix(rows, 6, MODULUS)
    ensures SameSolutions(rows, rows, 6, MODULUS)
  {
  }

  lemma ReducedStart(rows: seq<seq<nat>>)
    ensures Reduced(rows, 0)
  {
  }
}
