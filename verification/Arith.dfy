/** Words, quotients and remainders. */
module Arith {

  type Word = x: int | 0 <= x < 0x1_0000_0000

  lemma DivModUnique(x: int, m: int, q: int, r: int)
    requires 0 < m && 0 <= r < m && x == m * q + r
    ensures x / m == q && x % m == r
  {
    var q', r' := x / m, x % m;
    assert x == m * q' + r';
    DivUnique(m, q, r, q', r');
  }

  lemma DivUnique(m: int, q: int, r: int, q': int, r': int)
    requires 0 < m && 0 <= r < m && 0 <= r' < m && m * q + r == m * q' + r'
    ensures q == q' && r == r'
  {
    if q > q' {
      MulGap(m, q, q');
    } else if q < q' {
      MulGap(m, q', q);
    }
  }

  lemma MulGap(m: int, x: int, y: int)
    requires 0 < m && y < x
    ensures m * y + m <= m * x
  {
    var d := x - y - 1;
    assert 0 <= m * d;
    assert m * x == m * (y + 1 + d) == m * y + m + m * d;
  }

  /** Going round a circle of `m` slots at most twice. */
  lemma ModSmall(x: int, m: int)
    requires 0 < m && 0 <= x < 3 * m
    ensures x % m == if x < m then x else if x < 2 * m then x - m else x - 2 * m
  {
    if x < m {
      DivModUnique(x, m, 0, x);
    } else if x < 2 * m {
      DivModUnique(x, m, 1, x - m);
    } else {
      DivModUnique(x, m, 2, x - 2 * m);
    }
  }

  lemma ModPlus(x: int, m: int)
    requires 0 < m
    ensures (x + m) % m == x % m && (x + m) / m == x / m + 1
  {
    var q, r := x / m, x % m;
    assert x + m == m * (q + 1) + r;
    DivModUnique(x + m, m, q + 1, r);
  }

  lemma ModAdd(x: int, y: int, m: int)
    requires 0 < m
    ensures (x % m + y) % m == (x + y) % m
  {
    var q, r := x / m, x % m;
    var q', r' := (r + y) / m, (r + y) % m;
    assert x + y == m * (q + q') + r';
    DivModUnique(x + y, m, q + q', r');
  }
}
