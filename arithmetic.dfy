/** Facts about integer division and multiplication that the address
    arithmetic of the detiler leans on. */
module Arithmetic {

  /** Division with a remainder in range is unique: if n = q*d + r with
      0 <= r < d, then q and r are n / d and n % d. */
  lemma DivModUnique(n: int, d: int, q: int, r: int)
    requires d > 0 && 0 <= r < d && n == q * d + r
    ensures n / d == q && n % d == r
  {
    var q', r' := n / d, n % d;
    assert n == q' * d + r';
    MulMonotone(q' + 1, q, d);
    MulMonotone(q + 1, q', d);
  }

  /** Multiplying by a non-negative factor keeps the order. */
  lemma MulMonotone(a: int, b: int, c: int)
    requires c >= 0
    ensures a <= b ==> a * c <= b * c
  {
    assert b * c - a * c == (b - a) * c;
  }

  /** Row-major coordinates stay inside a rows-by-cols rectangle: row a of
      fewer than rows, column b of fewer than cols. */
  lemma RowMajorBound(a: int, b: int, rows: int, cols: int)
    requires 0 <= a < rows && 0 <= b < cols
    ensures 0 <= a * cols + b < rows * cols
  {
    MulMonotone(a + 1, rows, cols);
    assert (a + 1) * cols == a * cols + cols;
  }

  /** An index below rows*cols has a row below rows and a column below cols. */
  lemma RowMajorSplit(i: int, rows: nat, cols: nat)
    requires 0 <= i < rows * cols
    ensures cols > 0 && i == i / cols * cols + i % cols
    ensures 0 <= i / cols < rows && 0 <= i % cols < cols
  {
    MulMonotone(rows, i / cols, cols);
  }

  /** Dividing by k then by j is dividing by k*j. */
  lemma DivDiv(a: nat, k: nat, j: nat)
    requires k > 0 && j > 0
    ensures a / k / j == a / (k * j)
  {
    var q, r := a / k / j, a / k % j;
    assert a / k == q * j + r;
    assert a == q * (k * j) + (r * k + a % k);
    MulMonotone(r + 1, j, k);
    DivModUnique(a, k * j, q, r * k + a % k);
  }

  /** The remainder by k*j, divided by k, is the quotient by k taken
      modulo j. */
  lemma ModDiv(a: nat, k: nat, j: nat)
    requires k > 0 && j > 0
    ensures a % (k * j) / k == a / k % j
  {
    DivDiv(a, k, j);
    var q, r := a / k / j, a / k % j;
    assert a == q * (k * j) + (r * k + a % k);
    MulMonotone(r + 1, j, k);
    DivModUnique(a, k * j, q, r * k + a % k);
    DivModUnique(r * k + a % k, k, r, a % k);
  }

  /** Taking the remainder by k*j first does not change the remainder by k. */
  lemma ModMod(a: nat, k: nat, j: nat)
    requires k > 0 && j > 0
    ensures a % (k * j) % k == a % k
  {
    var q, r := a / (k * j), a % (k * j);
    assert a == (q * j + r / k) * k + r % k;
    DivModUnique(a, k, q * j + r / k, r % k);
  }

  /** The remainder by k*j is made of the remainder by k and the quotient
      by k taken modulo j. */
  lemma SplitMod(a: nat, k: nat, j: nat)
    requires k > 0 && j > 0
    ensures a % (k * j) == a % k + k * (a / k % j)
  {
    ModDiv(a, k, j);
    ModMod(a, k, j);
  }
}
