/** Mixed-radix arithmetic shared by the tensor layout modules. */
module MixedRadix {

  /** The position of digit r below q when the low digit ranges over [0, d). */
  function Mix(q: int, d: int, r: int): int {
    q * d + r
  }

  lemma MixDivMod(q: int, d: int, r: int)
    requires 0 <= r < d
    ensures Mix(q, d, r) / d == q
    ensures Mix(q, d, r) % d == r
  {
    var a := Mix(q, d, r);
    var b := a / d;
    assert a == b * d + a % d;
    assert b < q ==> (b + 1) * d <= q * d;
    assert b > q ==> (q + 1) * d <= b * d;
  }

  lemma MixInjective(q: int, r: int, q': int, r': int, d: int)
    requires 0 <= r < d && 0 <= r' < d
    requires Mix(q, d, r) == Mix(q', d, r')
    ensures q == q' && r == r'
  {
    MixDivMod(q, d, r);
    MixDivMod(q', d, r');
  }

  lemma MixBound(q: int, n: int, d: int, r: int)
    requires 0 <= q < n && 0 <= r < d
    ensures 0 <= Mix(q, d, r) < n * d
  {
    assert 0 <= q * d;
    assert (q + 1) * d <= n * d;
  }

  /** Every number is its own digits put back together. */
  lemma MixSplit(a: int, d: int)
    requires 0 < d
    ensures Mix(a / d, d, a % d) == a
    ensures 0 <= a % d < d
  {}

  lemma DivBound(a: int, n: int, d: int)
    requires 0 <= a < n * d && 0 < d
    ensures 0 <= a / d < n
  {
    var q := a / d;
    assert a == q * d + a % d;
    assert q >= n ==> n * d <= q * d;
  }

  lemma DivSign(a: nat, d: nat)
    requires 0 < d
    ensures a / d >= 0 && a % d >= 0
  {}

  lemma MulStrict(a: int, b: int, d: int)
    requires 0 < d && a * d < b * d
    ensures a < b
  {
    assert b <= a ==> b * d <= a * d;
  }

  /** The only multiple of d above row*d and at most (row+1)*d is the latter. */
  lemma NextMultiple(row: int, d: int, a: int)
    requires 0 < d && row * d < a <= (row + 1) * d && a % d == 0
    ensures a == (row + 1) * d && a / d == row + 1
  {
    var q := a / d;
    assert a == q * d;
    MulStrict(row, q, d);
    assert (row + 1) * d < (row + 2) * d;
    MulStrict(q, row + 2, d);
  }

  lemma MixBase(q: int, d: int)
    ensures Mix(q, d, 0) == q * d && Mix(0, d, 0) == 0
  {}

  lemma MixNext(q: int, d: int, r: int)
    ensures Mix(q, d, r + 1) == Mix(q, d, r) + 1
  {}

  /** Counting a low digit up to its radix carries into the next digit. */
  lemma Carry(q: int, d: int)
    ensures Mix(q, d, d) == Mix(q + 1, d, 0)
  {}

  /** Quotient and remainder are unique. */
  lemma DivModUnique(a: int, q: int, d: int, r: int)
    requires 0 <= r < d && a == q * d + r
    ensures a / d == q && a % d == r
  {
    MixDivMod(q, d, r);
  }

  lemma Distribute(a: int, b: int, c: int)
    ensures (a + b) * c == a * c + b * c
  {}

  lemma Associate(a: int, b: int, c: int)
    ensures a * b * c == a * (b * c)
  {}

  lemma Rotate(a: int, b: int, c: int)
    ensures a * b * c == a * c * b
  {}

  lemma MulMono(a: int, b: int, c: int)
    requires a <= b && 0 <= c
    ensures a * c <= b * c
  {}

  lemma NonNegProducts(a: nat, b: nat, c: nat)
    ensures a * b >= 0 && a * b * c >= 0 && b * c >= 0 && a * (c * b) == a * b * c
  {}

  lemma ScaleDigit(r: int, d: int, w: int)
    requires 0 <= r < d && 1 <= w
    ensures 0 <= r * w < d * w
    ensures r * w == 0 <==> r == 0
  {
    if r < d - 1 {
      MulMono(r + 1, d, w);
    }
    Distribute(r, 1, w);
    if r > 0 {
      MulMono(1, r, w);
    }
  }

  /** The start of row `row` of width w is a multiple of s whole rows exactly
      when the row number is a multiple of s. */
  lemma RowStartsBlock(row: nat, s: nat, w: nat)
    requires 1 <= s && 1 <= w
    ensures (row * w) % (s * w) == 0 <==> row % s == 0
  {
    var q, r := row / s, row % s;
    Distribute(q * s, r, w);
    Associate(q, s, w);
    ScaleDigit(r, s, w);
    DivModUnique(row * w, q, s * w, r * w);
  }
}
