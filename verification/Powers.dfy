/** Powers and the few nonlinear facts the rest of the model leans on. */
module Powers {

  function Pow(b: int, k: nat): (p: int)
    ensures b > 0 ==> p > 0
  {
    if k == 0 then 1 else b * Pow(b, k - 1)
  }

  lemma MulLe(x: int, y: int, z: int)
    requires x <= y && 0 <= z
    ensures x * z <= y * z
  {
  }

  lemma MulLt(x: int, y: int, z: int)
    requires x < y && 0 < z
    ensures x * z < y * z
  {
  }

  lemma MulCancelLt(x: int, y: int, z: int)
    requires x * z < y * z && 0 < z
    ensures x < y
  {
    if y <= x {
      MulLe(y, x, z);
    }
  }

  lemma Distribute(x: int, y: int, z: int)
    ensures x * (y + z) == x * y + x * z
    ensures (y + z) * x == y * x + z * x
  {
  }

  lemma Scale(p: int, w: int, w': int, x: int)
    requires w' == w + x
    ensures p * w' == p * w + x * p
    ensures w' * p == w * p + x * p
  {
  }

  lemma DivModDef(a: int, m: int)
    requires m > 0
    ensures a == (a / m) * m + a % m && 0 <= a % m < m
  {
  }

  lemma DivModLe(a: nat, m: int)
    requires m > 0
    ensures 0 <= a / m && a % m <= a
  {
    DivModDef(a, m);
    if a / m < 0 {
      MulLe(a / m, -1, m);
    }
    MulLe(0, a / m, m);
  }

  lemma DivLe(x: nat, p: int)
    requires p > 0
    ensures 0 <= x / p <= x
  {
    DivModLe(x, p);
    DivModDef(x, p);
    MulLe(1, p, x / p);
  }

  lemma ProductMono(x: nat, x': nat, y: nat, y': nat)
    requires x <= x' && y <= y'
    ensures x * y <= x' * y'
  {
    MulLe(x, x', y);
    MulLe(y, y', x');
  }

  lemma Associate(x: int, y: int, z: int)
    ensures x * (y * z) == (x * y) * z
  {
  }

  lemma PowSucc(b: int, k: nat)
    ensures Pow(b, k + 1) == b * Pow(b, k)
  {
  }

  lemma {:induction false} PowAdd(b: int, i: nat, j: nat)
    ensures Pow(b, i + j) == Pow(b, i) * Pow(b, j)
  {
    if i == 0 {
    } else {
      PowAdd(b, i - 1, j);
      assert b * (Pow(b, i - 1) * Pow(b, j)) == (b * Pow(b, i - 1)) * Pow(b, j);
    }
  }

  lemma {:induction false} PowMul(b: int, i: nat, j: nat)
    ensures Pow(Pow(b, i), j) == Pow(b, i * j)
  {
    if j == 0 {
      assert i * j == 0;
    } else {
      PowMul(b, i, j - 1);
      assert i * j == i + i * (j - 1);
      PowAdd(b, i, i * (j - 1));
    }
  }

  lemma {:induction false} PowMono(b: int, i: nat, j: nat)
    requires b >= 1 && i <= j
    ensures Pow(b, i) <= Pow(b, j)
  {
    if i < j {
      PowMono(b, i, j - 1);
      MulLe(1, b, Pow(b, j - 1));
    }
  }

  lemma {:induction false} PowBaseMono(a: int, b: int, k: nat)
    requires 0 <= a <= b
    ensures 0 <= Pow(a, k) <= Pow(b, k)
  {
    if k > 0 {
      PowBaseMono(a, b, k - 1);
      MulLe(Pow(a, k - 1), Pow(b, k - 1), a);
      MulLe(a, b, Pow(b, k - 1));
    }
  }

  /** Euclidean quotient and remainder are the only ones. */
  lemma DivModUnique(a: int, b: int, q: int, r: int)
    requires b > 0 && 0 <= r < b && a == q * b + r
    ensures q == a / b && r == a % b
  {
    var d := q - a / b;
    assert d * b == a % b - r by {
      assert a == (a / b) * b + a % b;
      assert d * b == q * b - (a / b) * b;
    }
    if d >= 1 {
      MulLe(1, d, b);
    } else if d <= -1 {
      MulLe(d, -1, b);
    }
  }

  /** Adding a multiple of the divisor leaves the remainder alone. */
  lemma ModAddMultiple(a: int, k: int, m: int)
    requires m > 0
    ensures (a + k * m) % m == a % m
  {
    assert a + k * m == (a / m + k) * m + a % m;
    DivModUnique(a + k * m, m, a / m + k, a % m);
  }

  lemma ModMul(x: int, y: int, m: int)
    requires m > 0
    ensures ((x % m) * y) % m == (x * y) % m
  {
    var q := x / m;
    assert x == q * m + x % m;
    assert x * y == (x % m) * y + (q * y) * m;
    ModAddMultiple((x % m) * y, q * y, m);
  }

  lemma ModMul2(x: int, y: int, m: int)
    requires m > 0
    ensures ((x % m) * (y % m)) % m == (x * y) % m
  {
    ModMul(x, y % m, m);
    assert x * (y % m) == (y % m) * x && x * y == y * x;
    ModMul(y, x, m);
  }

  /** floor(floor(x / c) / d) == floor(x / (c * d)) */
  lemma DivDiv(x: nat, c: nat, d: nat)
    requires c > 0 && d > 0
    ensures c * d > 0
    ensures x / c / d == x / (c * d)
  {
    SplitTwice(x, c, d);
  }

  /** Dividing by c and then by d is dividing by c * d, with a remainder of two digits. */
  lemma SplitTwice(x: nat, c: nat, d: nat)
    requires c > 0 && d > 0
    ensures c * d > 0
    ensures x / c / d == x / (c * d)
    ensures x % (c * d) == (x / c) % d * c + x % c
  {
    var q, r := x / c, x % c;
    var q2, r2 := q / d, q % d;
    assert x == q * c + r && 0 <= r < c by { DivModDef(x, c); }
    assert q == q2 * d + r2 && 0 <= r2 < d by { DivModDef(q, d); }
    TwoDigits(x, c, d, q2, r2, r);
    DivModUnique(x, c * d, q2, r2 * c + r);
  }

  lemma TwoDigits(x: int, c: int, d: int, q: int, r2: int, r: int)
    requires c > 0 && 0 <= r < c && 0 <= r2 < d && x == (q * d + r2) * c + r
    ensures x == q * (c * d) + (r2 * c + r) && 0 <= r2 * c + r < c * d
  {
    assert (q * d + r2) * c == (q * d) * c + r2 * c by { Distribute(c, q * d, r2); }
    assert (q * d) * c == q * (c * d) by { Associate(q, d, c); Commute(d, c); }
    assert 0 <= r2 * c by { MulLe(0, r2, c); }
    assert r2 * c + c <= d * c by { MulLe(r2 + 1, d, c); Distribute(c, r2, 1); }
    Commute(d, c);
  }

  lemma Commute(x: int, y: int)
    ensures x * y == y * x
  {
  }

  /** A common factor cancels from a quotient. */
  lemma DivCancel(x: nat, c: nat, d: nat)
    requires c > 0 && d > 0
    ensures c * d > 0
    ensures (c * x) / (c * d) == x / d
    ensures (c * x) % (c * d) == c * (x % d)
  {
    MulLe(1, c, d);
    var q, r := x / d, x % d;
    assert c * x == q * (c * d) + c * r by {
      assert x == q * d + r;
      assert c * x == c * (q * d + r) == c * (q * d) + c * r;
      assert c * (q * d) == q * (c * d);
    }
    assert 0 <= c * r < c * d by {
      MulLt(r, d, c);
      MulLe(0, r, c);
    }
    DivModUnique(c * x, c * d, q, c * r);
  }
}
