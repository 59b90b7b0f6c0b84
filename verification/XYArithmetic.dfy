/** A few facts about products and quotients, for numbers told by a quotient and a
    remainder: the cells (x, y) of a grid, the digits of a number, the steps of a rotation. */
module XYArithmetic {

  lemma {:induction false} Product(a: int, b: int, c: int)
    ensures (a + b) * c == a * c + b * c
  {
  }

  lemma {:induction false} ProductGrows(a: nat, b: nat, c: nat)
    requires a <= b
    ensures a * c <= b * c
  {
    Product(a, b - a, c);
    assert (b - a) * c >= 0;
  }

  lemma {:induction false} FactorBelow(q: int, n: int, d: nat)
    requires q * d < n * d
    ensures q < n
  {
    Product(n, 0 - q, d);
    assert (n - q) * d > 0;
    assert n - q > 0;
  }

  lemma {:induction false} DivUnique(q: nat, d: nat, r: nat)
    requires r < d
    ensures (q * d + r) / d == q && (q * d + r) % d == r
  {
    var n := q * d + r;
    assert n == n / d * d + n % d;
    Product(n / d, 0 - q, d);
    var k := n / d - q;
    assert k * d == r - n % d;
    FactorBelow(k, 1, d);
    FactorBelow(-1, k, d);
  }

  lemma {:induction false} DivBelow(n: nat, d: nat, q: nat)
    requires n < q * d
    ensures d > 0 && n / d < q
  {
    assert d > 0;
    FactorBelow(n / d, q, d);
  }

  /** Cell (x, y) of a grid has number y * cols + x. */
  lemma {:induction false} CellNumber(cols: nat, rows: nat, x: nat, y: nat)
    requires x < cols && y < rows
    ensures y * cols + x < cols * rows
    ensures (y * cols + x) / cols == y && (y * cols + x) % cols == x
  {
    DivUnique(y, cols, x);
    ProductGrows(y + 1, rows, cols);
    Product(y, 1, cols);
  }

  lemma {:induction false} CellOf(cols: nat, rows: nat, t: nat)
    requires t < cols * rows
    ensures cols > 0 && 0 <= t / cols < rows && 0 <= t % cols < cols
    ensures t == t / cols * cols + t % cols
  {
    DivBelow(t, cols, rows);
  }
}
