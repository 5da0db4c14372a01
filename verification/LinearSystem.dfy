/** Homogeneous linear systems over the residues modulo m, and the row operations that keep their
    solutions. */
module LinearSystem {
  import opened Gf2Poly
  import opened FieldTheory
  import opened ReedSolomon

  function Dot(row: seq<nat>, z: seq<nat>, m: nat): nat
    requires |row| == |z|
  {
    if row == [] then 0 else Xor(Times(row[0], z[0], m), Dot(row[1..], z[1..], m))
  }

  function ScaledRow(row: seq<nat>, c: nat, m: nat): (r: seq<nat>)
    ensures |r| == |row| && forall k :: 0 <= k < |r| ==> r[k] == Times(row[k], c, m)
  {
    seq(|row|, k requires 0 <= k < |row| => Times(row[k], c, m))
  }

  function CombinedRow(row: seq<nat>, c: nat, other: seq<nat>, m: nat): (r: seq<nat>)
    requires |other| == |row|
    ensures |r| == |row| && forall k :: 0 <= k < |r| ==> r[k] == Xor(row[k], Times(c, other[k], m))
  {
    seq(|row|, k requires 0 <= k < |row| => Xor(row[k], Times(c, other[k], m)))
  }

  lemma {:induction false} DotConcat(a: seq<nat>, b: seq<nat>, c: seq<nat>, d: seq<nat>, m: nat)
    requires |a| == |c| && |b| == |d|
    ensures Dot(a + b, c + d, m) == Xor(Dot(a, c, m), Dot(b, d, m))
  {
    hide Times, Xor;
    if a == [] {
      assert a + b == b && c + d == d;
      XorZero(Dot(b, d, m));
    } else {
      DotConcat(a[1..], b, c[1..], d, m);
      assert (a + b)[1..] == a[1..] + b && (c + d)[1..] == c[1..] + d;
      XorAssoc(Times(a[0], c[0], m), Dot(a[1..], c[1..], m), Dot(b, d, m));
    }
  }

  lemma {:induction false} DotZero(row: seq<nat>, z: seq<nat>, m: nat)
    requires m > 0 && |row| == |z|
    requires forall k :: 0 <= k < |row| ==> row[k] == 0 || z[k] == 0
    ensures Dot(row, z, m) == 0
  {
    hide Times, Xor;
    XorZero(0);
    if row != [] {
      TimesUnits(row[0], m);
      TimesUnits(z[0], m);
      DotZero(row[1..], z[1..], m);
    }
  }

  lemma DotSingle(x: nat, y: nat, m: nat)
    ensures Dot([x], [y], m) == Times(x, y, m)
  {
    hide Times;
    assert [x][1..] == [] && [y][1..] == [];
    XorZero(Times(x, y, m));
  }

  /** Only position r contributes. */
  lemma DotUnit(row: seq<nat>, z: seq<nat>, r: nat, m: nat)
    requires m > 0 && |row| == |z| && r < |row|
    requires forall k :: 0 <= k < |row| && k != r ==> row[k] == 0 || z[k] == 0
    ensures Dot(row, z, m) == Times(row[r], z[r], m)
  {
    hide Dot, Times, Xor;
    var a, b, c, d := row[..r], row[r + 1..], z[..r], z[r + 1..];
    assert row == a + ([row[r]] + b) && z == c + ([z[r]] + d);
    DotConcat(a, [row[r]] + b, c, [z[r]] + d, m);
    DotConcat([row[r]], b, [z[r]], d, m);
    DotZero(a, c, m);
    DotZero(b, d, m);
    DotSingle(row[r], z[r], m);
    XorZero(Times(row[r], z[r], m));
  }

  lemma {:induction false} DotScaled(row: seq<nat>, z: seq<nat>, c: nat, m: nat)
    requires m > 0 && |row| == |z|
    ensures Dot(ScaledRow(row, c, m), z, m) == Times(c, Dot(row, z, m), m)
  {
    hide Times, Xor;
    TimesUnits(c, m);
    if row != [] {
      DotScaled(row[1..], z[1..], c, m);
      assert ScaledRow(row, c, m)[1..] == ScaledRow(row[1..], c, m);
      TimesDist(c, Times(row[0], z[0], m), Dot(row[1..], z[1..], m), m);
      TimesComm(row[0], c, m);
      TimesAssoc(c, row[0], z[0], m);
    }
  }

  lemma {:induction false} DotCombined(row: seq<nat>, c: nat, other: seq<nat>, z: seq<nat>, m: nat)
    requires m > 0 && |row| == |z| == |other|
    ensures Dot(CombinedRow(row, c, other, m), z, m) == Xor(Dot(row, z, m), Times(c, Dot(other, z, m), m))
  {
    hide Times, Xor;
    TimesUnits(c, m);
    XorZero(0);
    if row != [] {
      DotCombined(row[1..], c, other[1..], z[1..], m);
      assert CombinedRow(row, c, other, m)[1..] == CombinedRow(row[1..], c, other[1..], m);
      var p, q := Dot(row[1..], z[1..], m), Dot(other[1..], z[1..], m);
      TimesDist(c, Times(other[0], z[0], m), q, m);
      TimesDist(z[0], row[0], Times(c, other[0], m), m);
      TimesAssoc(c, other[0], z[0], m);
      XorSwap4(Times(row[0], z[0], m), Times(c, Times(other[0], z[0], m), m), p, Times(c, q, m));
    }
  }

  /** Rows of equal length with entries in the field. */
  ghost predicate Matrix(rows: seq<seq<nat>>, width: nat, m: nat) {
    forall r :: 0 <= r < |rows| ==> |rows[r]| == width && Elems(rows[r], m)
  }

  ghost predicate Solves(rows: seq<seq<nat>>, z: seq<nat>, m: nat)
    requires Matrix(rows, |z|, m)
  {
    forall r :: 0 <= r < |rows| ==> Dot(rows[r], z, m) == 0
  }

  ghost predicate SameSolutions(a: seq<seq<nat>>, b: seq<seq<nat>>, width: nat, m: nat)
    requires Matrix(a, width, m) && Matrix(b, width, m)
  {
    forall z: seq<nat> :: |z| == width && Elems(z, m) ==> (Solves(a, z, m) <==> Solves(b, z, m))
  }

  lemma SwapKeeps(rows: seq<seq<nat>>, i: nat, j: nat, width: nat, m: nat)
    requires Matrix(rows, width, m) && i < |rows| && j < |rows|
    ensures Matrix(rows[i := rows[j]][j := rows[i]], width, m)
    ensures SameSolutions(rows, rows[i := rows[j]][j := rows[i]], width, m)
  {
    hide Dot;
    var s := rows[i := rows[j]][j := rows[i]];
    assert rows == s[i := s[j]][j := s[i]];
    forall z: seq<nat> | |z| == width && Elems(z, m)
      ensures Solves(rows, z, m) <==> Solves(s, z, m)
    {
      if Solves(rows, z, m) {
        assert forall r :: 0 <= r < |s| ==> s[r] == if r == j then rows[i] else if r == i then rows[j] else rows[r];
      }
      if Solves(s, z, m) {
        assert s[i] == rows[j] && s[j] == rows[i];
        assert forall r :: 0 <= r < |s| && r != i && r != j ==> s[r] == rows[r];
      }
    }
  }

  lemma ScaleKeeps(rows: seq<seq<nat>>, i: nat, c: nat, width: nat, m: nat)
    requires Irreducible(m) && Matrix(rows, width, m) && i < |rows| && c != 0 && Elem(c, m)
    ensures Matrix(rows[i := ScaledRow(rows[i], c, m)], width, m)
    ensures SameSolutions(rows, rows[i := ScaledRow(rows[i], c, m)], width, m)
  {
    hide Dot, Times, Splits;
    var s := rows[i := ScaledRow(rows[i], c, m)];
    forall k | 0 <= k < width
      ensures Elem(s[i][k], m)
    {
      TimesElem(rows[i][k], c, m);
    }
    forall z: seq<nat> | |z| == width && Elems(z, m)
      ensures Solves(rows, z, m) <==> Solves(s, z, m)
    {
      DotScaled(rows[i], z, c, m);
      DotElem(rows[i], z, m);
      TimesUnits(c, m);
      if Dot(rows[i], z, m) != 0 {
        NoZeroDivisors(c, Dot(rows[i], z, m), m);
      }
      assert forall r :: 0 <= r < |s| && r != i ==> s[r] == rows[r];
    }
  }

  lemma {:induction false} DotElem(row: seq<nat>, z: seq<nat>, m: nat)
    requires m > 0 && |row| == |z|
    ensures Elem(Dot(row, z, m), m)
  {
    hide Times, Xor;
    if row != [] {
      TimesElem(row[0], z[0], m);
      DotElem(row[1..], z[1..], m);
      NBitXor(Times(row[0], z[0], m), Dot(row[1..], z[1..], m));
    }
  }

  lemma CombineKeeps(rows: seq<seq<nat>>, i: nat, c: nat, k: nat, width: nat, m: nat)
    requires m > 0 && Matrix(rows, width, m) && i < |rows| && k < |rows| && i != k
    ensures Matrix(rows[i := CombinedRow(rows[i], c, rows[k], m)], width, m)
    ensures SameSolutions(rows, rows[i := CombinedRow(rows[i], c, rows[k], m)], width, m)
  {
    hide Dot, Times, Xor;
    var s := rows[i := CombinedRow(rows[i], c, rows[k], m)];
    forall j | 0 <= j < width
      ensures Elem(s[i][j], m)
    {
      TimesElem(c, rows[k][j], m);
      NBitXor(rows[i][j], Times(c, rows[k][j], m));
    }
    forall z: seq<nat> | |z| == width && Elems(z, m)
      ensures Solves(rows, z, m) <==> Solves(s, z, m)
    {
      DotCombined(rows[i], c, rows[k], z, m);
      TimesUnits(c, m);
      XorZero(Dot(rows[i], z, m));
      assert s[k] == rows[k];
      assert forall r :: 0 <= r < |s| && r != i ==> s[r] == rows[r];
    }
  }

  /** The first c columns are those of the unit matrix. */
  ghost predicate Reduced(rows: seq<seq<nat>>, c: nat) {
    && (forall r :: 0 <= r < |rows| ==> c <= |rows[r]|)
    && forall r, k :: 0 <= r < |rows| && 0 <= k < c ==> rows[r][k] == if r == k then 1 else 0
  }

  /** The vector that a column without a pivot leaves free. */
  function FreeVector(rows: seq<seq<nat>>, c: nat, width: nat): (z: seq<nat>)
    requires c < width && c <= |rows|
    requires forall r :: 0 <= r < c ==> |rows[r]| == width
    ensures |z| == width && z[c] == 1
    ensures forall k :: 0 <= k < width ==> z[k] == if k < c then rows[k][c] else if k == c then 1 else 0
  {
    seq(width, k requires 0 <= k < width => if k < c then rows[k][c] else if k == c then 1 else 0)
  }

  /** If column c has no pivot in rows c and below, the system has a solution with component c equal
      to one and all later components zero. */
  lemma NoPivotSolves(rows: seq<seq<nat>>, c: nat, width: nat, m: nat)
    requires NBit(m) >= 2 && Matrix(rows, width, m) && c < width && c < |rows| && Reduced(rows, c)
    requires forall r :: c <= r < |rows| ==> rows[r][c] == 0
    ensures Elems(FreeVector(rows, c, width), m)
    ensures Solves(rows, FreeVector(rows, c, width), m)
  {
    hide Times, Xor, Dot;
    var z := FreeVector(rows, c, width);
    forall r | 0 <= r < |rows|
      ensures Dot(rows[r], z, m) == 0
    {
      var row := rows[r];
      assert row == row[..c] + row[c..] && z == z[..c] + z[c..];
      DotConcat(row[..c], row[c..], z[..c], z[c..], m);
      DotUnit(row[c..], z[c..], 0, m);
      TimesUnits(row[c], m);
      if r < c {
        DotUnit(row[..c], z[..c], r, m);
        TimesUnits(z[r], m);
        XorSelf(row[c]);
      } else {
        DotZero(row[..c], z[..c], m);
        XorZero(0);
      }
    }
  }

  /** A completely reduced system is solved by its last column. */
  lemma ReducedSolves(rows: seq<seq<nat>>, z: seq<nat>, m: nat)
    requires NBit(m) >= 2 && |z| == |rows| + 1 && Matrix(rows, |z|, m) && Elems(z, m)
    requires Reduced(rows, |rows|) && z[|rows|] == 1
    requires forall r :: 0 <= r < |rows| ==> z[r] == rows[r][|rows|]
    ensures Solves(rows, z, m)
  {
    hide Times, Xor, Dot;
    var n := |rows|;
    forall r | 0 <= r < n
      ensures Dot(rows[r], z, m) == 0
    {
      var row := rows[r];
      assert row == row[..n] + row[n..] && z == z[..n] + z[n..];
      DotConcat(row[..n], row[n..], z[..n], z[n..], m);
      DotUnit(row[n..], z[n..], 0, m);
      TimesUnits(row[n], m);
      DotUnit(row[..n], z[..n], r, m);
      TimesUnits(z[r], m);
      XorSelf(row[n]);
    }
  }
}
