/** Powers and bitwise operators on natural numbers, as the integer types of the source use them. */
module Powers {

  function Pow(b: nat, n: nat): nat { if n == 0 then 1 else b * Pow(b, n - 1) }

  function Pow2(n: nat): (r: nat)
    ensures r >= 1
  {
    if n == 0 then 1 else 2 * Pow2(n - 1)
  }

  lemma {:induction false} Pow2Add(m: nat, n: nat)
    ensures Pow2(m + n) == Pow2(m) * Pow2(n)
    decreases m
  {
    if m > 0 {
      Pow2Add(m - 1, n);
      assert Pow2(m + n) == 2 * Pow2(m - 1 + n);
    }
  }

  lemma {:induction false} Pow2Mono(m: nat, n: nat)
    requires m <= n
    ensures Pow2(m) <= Pow2(n)
    decreases n
  {
    if m < n { Pow2Mono(m, n - 1); }
  }

  lemma {:induction false} PowAdd(b: nat, m: nat, n: nat)
    ensures Pow(b, m + n) == Pow(b, m) * Pow(b, n)
    decreases m
  {
    if m > 0 {
      PowAdd(b, m - 1, n);
      assert Pow(b, m + n) == b * Pow(b, m - 1 + n);
      MulAssoc(b, Pow(b, m - 1), Pow(b, n));
    }
  }

  lemma MulAssoc(a: int, b: int, c: int)
    ensures a * b * c == a * (b * c)
  {
  }

  lemma MulMono(w: nat, a: int, b: int)
    requires a <= b
    ensures w * a <= w * b && a * w <= b * w
  {
  }

  lemma MulDistrib(a: int, b: int, c: int)
    ensures (a + b) * c == a * c + b * c && c * (a + b) == c * a + c * b
  {
  }

  /** The quotient and remainder are the only ones. */
  lemma DivModIs(n: int, d: int, q: int, r: int)
    requires d > 0 && 0 <= r < d && n == q * d + r
    ensures n / d == q && n % d == r
  {
    var q', r' := n / d, n % d;
    assert n == d * q' + r';
    assert d * (q' - q) == r - r';
    if q' > q { MulMono(d, 1, q' - q); } else if q' < q { MulMono(d, q' - q, -1); }
  }

  lemma ModShift(x: int, m: nat, k: int)
    requires m > 0
    ensures (x + m * k) % m == x % m
  {
    DivModIs(x + m * k, m, x / m + k, x % m);
  }

  lemma ModAdd(x: nat, y: nat, m: nat)
    requires m > 0
    ensures (x % m + y) % m == (x + y) % m
  {
    var q, r := x / m, x % m;
    assert x == m * q + r;
    ModShift(r + y, m, q);
    assert x + y == r + y + m * q;
  }

  lemma QuotientAtMost(x: nat, d: int)
    requires d > 0
    ensures 0 <= x / d <= x
  {
    assert x == d * (x / d) + x % d;
    if x / d > x { MulMono(d, x + 1, x / d); MulMono(x + 1, 1, d); }
  }

  lemma TwoTo32()
    ensures Pow2(32) == 0x1_0000_0000
  {
    assert Pow2(8) == 256;
    Pow2Add(8, 8);
    Pow2Add(16, 16);
  }

  // ------------------------------------------------------------------- bitwise

  function BitOr(x: nat, y: nat): nat {
    if x == 0 then y else if y == 0 then x
    else 2 * BitOr(x / 2, y / 2) + if x % 2 == 1 || y % 2 == 1 then 1 else 0
  }

  function BitAnd(x: nat, y: nat): nat {
    if x == 0 || y == 0 then 0
    else 2 * BitAnd(x / 2, y / 2) + if x % 2 == 1 && y % 2 == 1 then 1 else 0
  }

  /** Numbers without a common bit are combined by adding them. */
  lemma {:induction false} OrDisjoint(x: nat, y: nat, k: nat)
    requires x % Pow2(k) == 0 && y < Pow2(k)
    ensures BitOr(x, y) == x + y && BitOr(y, x) == x + y
    decreases k
  {
    if k > 0 && x > 0 && y > 0 {
      HalveMultiple(x, Pow2(k - 1));
      OrDisjoint(x / 2, y / 2, k - 1);
    }
  }

  /** Bits above those of y are not affected. */
  lemma {:induction false} OrLow(x: nat, low: nat, y: nat, k: nat)
    requires x % Pow2(k) == 0 && low < Pow2(k) && y < Pow2(k)
    ensures BitOr(x + low, y) == x + BitOr(low, y)
    decreases k
  {
    if k > 0 {
      hide BitOr;
      HalveMultiple(x, Pow2(k - 1));
      OrLow(x / 2, low / 2, y / 2, k - 1);
      OrStep(x / 2, low, y);
    }
  }

  lemma HalveMultiple(x: nat, p: nat)
    requires p > 0 && x % (2 * p) == 0
    ensures x % 2 == 0 && (x / 2) % p == 0
  {
    var q := x / (2 * p);
    assert x == 2 * p * q;
    assert x == 2 * (p * q);
    DivModIs(x / 2, p, q, 0);
  }

  lemma OrStep(h: nat, low: nat, y: nat)
    requires BitOr(h + low / 2, y / 2) == h + BitOr(low / 2, y / 2)
    ensures BitOr(2 * h + low, y) == 2 * h + BitOr(low, y)
  {
    assert (2 * h + low) / 2 == h + low / 2 && (2 * h + low) % 2 == low % 2;
  }

  lemma {:induction false} AndAtMost(x: nat, y: nat)
    ensures BitAnd(x, y) <= x && BitAnd(x, y) <= y
    decreases x
  {
    if x > 0 && y > 0 { AndAtMost(x / 2, y / 2); }
  }
}
