/**
 Sums, dot products and matrices of bytes over GF(2^8): the algebra behind encoding, decoding
 and repair. A matrix is the sequence of its rows.
 */
module Linear {
  import opened Gf256

  type Row = seq<Byte>
  type Matrix = seq<Row>

  function Sum(xs: seq<Byte>): Byte {
    if xs == [] then Zero else Add(xs[0], Sum(xs[1..]))
  }

  function Dot(row: Row, column: seq<Byte>): Byte
    requires |row| == |column|
  {
    if row == [] then Zero else Add(Mul(row[0], column[0]), Dot(row[1..], column[1..]))
  }

  predicate IsMatrix(m: Matrix, rows: nat, columns: nat) {
    |m| == rows && forall i :: 0 <= i < rows ==> |m[i]| == columns
  }

  /** The matrix applied to a column. */
  function Apply(m: Matrix, column: seq<Byte>): (r: seq<Byte>)
    requires IsMatrix(m, |m|, |column|)
  {
    seq(|m|, i requires 0 <= i < |m| => Dot(m[i], column))
  }

  function Zeros(k: nat): Row {
    seq(k, _ => Zero)
  }

  function Ones(k: nat): Row {
    seq(k, _ => One)
  }

  /** Row i of the identity matrix. */
  function Unit(k: nat, i: nat): Row {
    seq(k, j => if j == i then One else Zero)
  }

  function AddRows(a: Row, b: Row): Row
    requires |a| == |b|
  {
    seq(|a|, j requires 0 <= j < |a| => Add(a[j], b[j]))
  }

  function ScaleRow(c: Byte, row: Row): Row {
    seq(|row|, j requires 0 <= j < |row| => Mul(row[j], c))
  }

  /** The row e times the matrix m, as a combination of the rows of m. */
  function Combine(e: Row, m: Matrix, k: nat): (r: Row)
    requires IsMatrix(m, |e|, k)
    ensures |r| == k
  {
    if e == [] then Zeros(k) else AddRows(ScaleRow(e[0], m[0]), Combine(e[1..], m[1..], k))
  }

  /** inv times m is the identity. */
  predicate IsInverse(inv: Matrix, m: Matrix, k: nat) {
    && IsMatrix(inv, k, k)
    && IsMatrix(m, k, k)
    && forall i :: 0 <= i < k ==> Combine(inv[i], m, k) == Unit(k, i)
  }

  lemma AddZero(x: Byte)
    ensures Add(x, Zero) == x == Add(Zero, x)
  {
  }

  lemma {:induction false} SumAppends(xs: seq<Byte>, ys: seq<Byte>)
    ensures Sum(xs + ys) == Add(Sum(xs), Sum(ys))
  {
    hide Add;
    if xs == [] {
      assert xs + ys == ys;
      AddZero(Sum(ys));
    } else {
      SumAppends(xs[1..], ys);
      assert (xs + ys)[1..] == xs[1..] + ys;
      AddAssociates(xs[0], Sum(xs[1..]), Sum(ys));
    }
  }

  lemma RemovalShrinks<T>(xs: seq<T>, i: nat)
    requires i < |xs|
    ensures multiset(xs[..i] + xs[i + 1..]) == multiset(xs) - multiset{xs[i]}
  {
    assert xs == xs[..i] + ([xs[i]] + xs[i + 1..]);
  }

  /** A sum does not depend on the order of its terms. */
  lemma {:induction false} SumPermutes(xs: seq<Byte>, ys: seq<Byte>)
    requires multiset(xs) == multiset(ys)
    ensures Sum(xs) == Sum(ys)
    decreases |xs|
  {
    hide Add;
    if xs == [] {
      assert |multiset(ys)| == 0;
    } else {
      assert xs[0] in multiset(ys);
      var i :| 0 <= i < |ys| && ys[i] == xs[0];
      var rest := ys[..i] + ys[i + 1..];
      assert ys == ys[..i] + ([ys[i]] + ys[i + 1..]);
      RemovalShrinks(xs, 0);
      RemovalShrinks(ys, i);
      assert xs[..0] + xs[1..] == xs[1..];
      SumPermutes(xs[1..], rest);
      SumAppends(ys[..i], [ys[i]] + ys[i + 1..]);
      SumAppends(ys[..i], ys[i + 1..]);
      SumMovesFirst(Sum(ys[..i]), ys[i], Sum(ys[i + 1..]));
    }
  }

  lemma SumMovesFirst(x: Byte, y: Byte, z: Byte)
    ensures Add(x, Add(y, z)) == Add(y, Add(x, z))
  {
    hide Add;
    AddAssociates(x, y, z);
    AddCommutes(x, y);
    AddAssociates(y, x, z);
  }

  function Products(row: Row, column: seq<Byte>): (ps: seq<Byte>)
    requires |row| == |column|
    ensures |ps| == |row|
  {
    seq(|row|, i requires 0 <= i < |row| => Mul(row[i], column[i]))
  }

  lemma {:induction false} DotIsSum(row: Row, column: seq<Byte>)
    requires |row| == |column|
    ensures Dot(row, column) == Sum(Products(row, column))
  {
    hide Add, Mul;
    if row != [] {
      DotIsSum(row[1..], column[1..]);
      assert Products(row, column)[1..] == Products(row[1..], column[1..]);
    }
  }

  lemma {:induction false} DotAddsRows(a: Row, b: Row, column: seq<Byte>)
    requires |a| == |b| == |column|
    ensures Dot(AddRows(a, b), column) == Add(Dot(a, column), Dot(b, column))
  {
    hide Add, Mul;
    if a == [] {
      AddZero(Zero);
    } else {
      DotAddsRows(a[1..], b[1..], column[1..]);
      assert AddRows(a, b)[1..] == AddRows(a[1..], b[1..]);
      MulAddsLeft(a[0], b[0], column[0]);
      AddExchanges(Mul(a[0], column[0]), Mul(b[0], column[0]), Dot(a[1..], column[1..]), Dot(b[1..], column[1..]));
    }
  }

  lemma MulAddsLeft(a: Byte, b: Byte, x: Byte)
    ensures Mul(Add(a, b), x) == Add(Mul(a, x), Mul(b, x))
  {
    hide Add, Mul;
    MulCommutes(Add(a, b), x);
    MulAdds(x, a, b);
    MulCommutes(a, x);
    MulCommutes(b, x);
  }

  lemma {:induction false} DotScalesRow(c: Byte, row: Row, column: seq<Byte>)
    requires |row| == |column|
    ensures Dot(ScaleRow(c, row), column) == Mul(c, Dot(row, column))
  {
    hide Add, Mul;
    if row == [] {
      MulZero(c);
    } else {
      DotScalesRow(c, row[1..], column[1..]);
      assert ScaleRow(c, row)[1..] == ScaleRow(c, row[1..]);
      MulAssociates(row[0], c, column[0]);
      MulAdds(c, Mul(row[0], column[0]), Dot(row[1..], column[1..]));
    }
  }

  lemma {:induction false} DotZeros(k: nat, column: seq<Byte>)
    requires |column| == k
    ensures Dot(Zeros(k), column) == Zero
  {
    hide Add, Mul;
    if k != 0 {
      AddZero(Zero);
      assert Zeros(k)[1..] == Zeros(k - 1);
      DotZeros(k - 1, column[1..]);
      MulZero(column[0]);
    }
  }

  /** Applying the product (e m) to a column is applying m to it and then e. */
  lemma {:induction false} DotCombines(e: Row, m: Matrix, column: seq<Byte>)
    requires IsMatrix(m, |e|, |column|)
    ensures Dot(Combine(e, m, |column|), column) == Dot(e, Apply(m, column))
  {
    hide Add, Mul;
    if e == [] {
      DotZeros(|column|, column);
    } else {
      var k := |column|;
      DotCombines(e[1..], m[1..], column);
      assert Apply(m, column)[1..] == Apply(m[1..], column);
      DotAddsRows(ScaleRow(e[0], m[0]), Combine(e[1..], m[1..], k), column);
      DotScalesRow(e[0], m[0], column);
    }
  }

  lemma {:induction false} DotUnit(k: nat, i: nat, column: seq<Byte>)
    requires i < k == |column|
    ensures Dot(Unit(k, i), column) == column[i]
  {
    hide Add, Mul;
    var rest := Unit(k, i)[1..];
    AddZero(column[i]);
    if i == 0 {
      assert rest == Zeros(k - 1);
      DotZeros(k - 1, column[1..]);
      MulOne(column[0]);
    } else {
      assert rest == Unit(k - 1, i - 1);
      DotUnit(k - 1, i - 1, column[1..]);
      MulZero(column[0]);
    }
  }

  /** An inverse undoes its matrix on every column. */
  lemma InverseUndoes(inv: Matrix, m: Matrix, column: seq<Byte>)
    requires IsInverse(inv, m, |column|)
    ensures Apply(inv, Apply(m, column)) == column
  {
    var k := |column|;
    forall i | 0 <= i < k
      ensures Apply(inv, Apply(m, column))[i] == column[i]
    {
      DotCombines(inv[i], m, column);
      DotUnit(k, i, column);
    }
  }

  lemma SumSnoc(xs: seq<Byte>, x: Byte)
    ensures Sum(xs + [x]) == Add(Sum(xs), x)
  {
    hide Add;
    SumAppends(xs, [x]);
    AddZero(x);
  }

  function ColumnOf(m: Matrix, k: nat, j: nat): (c: seq<Byte>)
    requires IsMatrix(m, |m|, k) && j < k
    ensures |c| == |m|
  {
    seq(|m|, l requires 0 <= l < |m| => m[l][j])
  }

  /** Entry j of a combination of rows is the sum of the products of column j with the coefficients. */
  lemma {:induction false} CombineAt(e: Row, m: Matrix, k: nat, j: nat)
    requires IsMatrix(m, |e|, k) && j < k
    ensures Combine(e, m, k)[j] == Sum(Products(ColumnOf(m, k, j), e))
  {
    hide Add, Mul;
    if e != [] {
      CombineAt(e[1..], m[1..], k, j);
      assert Products(ColumnOf(m, k, j), e)[1..] == Products(ColumnOf(m[1..], k, j), e[1..]);
    }
  }

  lemma {:induction false} CombineZeros(m: Matrix, k: nat)
    requires IsMatrix(m, |m|, k)
    ensures Combine(Zeros(|m|), m, k) == Zeros(k)
  {
    hide Add, Mul;
    if m != [] {
      assert Zeros(|m|)[1..] == Zeros(|m| - 1);
      CombineZeros(m[1..], k);
      forall j | 0 <= j < k
        ensures AddRows(ScaleRow(Zero, m[0]), Zeros(k))[j] == Zero
      {
        MulZero(m[0][j]);
        AddZero(Zero);
      }
    }
  }

  /** Row i of the identity picks row i of the matrix. */
  lemma {:induction false} CombineUnit(n: nat, i: nat, m: Matrix, k: nat)
    requires IsMatrix(m, n, k) && i < n
    ensures Combine(Unit(n, i), m, k) == m[i]
  {
    hide Add, Mul;
    var rest := Unit(n, i)[1..];
    if i == 0 {
      assert rest == Zeros(n - 1);
      CombineZeros(m[1..], k);
    } else {
      assert rest == Unit(n - 1, i - 1);
      CombineUnit(n - 1, i - 1, m[1..], k);
    }
    forall j | 0 <= j < k
      ensures Combine(Unit(n, i), m, k)[j] == m[i][j]
    {
      MulOne(m[0][j]);
      MulZero(m[0][j]);
      AddZero(m[i][j]);
    }
  }
}
