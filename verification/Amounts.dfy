/** Compact amounts (src/compressor.cpp) in 64-bit arithmetic. */
module Amounts {
  import opened Powers
  import opened Streams

  const MAX_MONEY: nat := 80_000_000_000_000_000

  // ------------------------------------------------------------- exact numbers

  /** Divides by ten while that is exact, at most nine times; e counts the times. */
  function Strip(n: nat, e: nat): (nat, nat)
    requires e <= 9
    decreases 9 - e
  {
    if n % 10 == 0 && e < 9 then Strip(n / 10, e + 1) else (n, e)
  }

  /** The code of m with e zeros. */
  function Pack(m: nat, e: nat): (x: nat)
    requires m > 0 && e <= 9
    ensures x > 0
  {
    if e < 9 then 1 + (m / 10 * 9 + m % 10 - 1) * 10 + e else 1 + (m - 1) * 10 + 9
  }

  function Unpack(x: nat): (r: (nat, nat))
    requires x > 0
    ensures r.0 > 0 && r.1 <= 9
  {
    var e, y := (x - 1) % 10, (x - 1) / 10;
    (if e < 9 then y / 9 * 10 + y % 9 + 1 else y + 1, e)
  }

  function CompressAmount(n: nat): nat {
    if n == 0 then 0 else StripIs(n, 0); Pack(Strip(n, 0).0, Strip(n, 0).1)
  }

  function DecompressAmount(x: nat): nat {
    if x == 0 then 0 else Unpack(x).0 * Pow(10, Unpack(x).1)
  }

  lemma {:induction false} StripIs(n: nat, e: nat)
    requires n > 0 && e <= 9
    ensures var (m, k) := Strip(n, e);
            e <= k <= 9 && n == m * Pow(10, k - e) && m > 0 && (k < 9 ==> m % 10 != 0)
    decreases 9 - e
  {
    if n % 10 == 0 && e < 9 {
      StripIs(n / 10, e + 1);
      var (m, k) := Strip(n / 10, e + 1);
      assert m * (10 * Pow(10, k - e - 1)) == 10 * (m * Pow(10, k - e - 1));
    } else {
      assert n * Pow(10, 0) == n;
    }
  }

  lemma {:induction false} StripPower(m: nat, j: nat, e: nat)
    requires m > 0 && e + j <= 9 && (e + j < 9 ==> m % 10 != 0)
    ensures Strip(m * Pow(10, j), e) == (m, e + j)
    decreases j
  {
    if j == 0 {
      assert m * Pow(10, 0) == m;
    } else {
      var q := m * Pow(10, j - 1);
      assert m * Pow(10, j) == 10 * q;
      StripPower(m, j - 1, e + 1);
    }
  }

  lemma PackUnpack(m: nat, e: nat)
    requires m > 0 && e <= 9 && (e < 9 ==> m % 10 != 0)
    ensures Unpack(Pack(m, e)) == (m, e)
  {
    if e < 9 {
      var y := m / 10 * 9 + (m % 10 - 1);
      assert y / 9 == m / 10 && y % 9 == m % 10 - 1;
      assert (Pack(m, e) - 1) / 10 == y;
    }
  }

  lemma UnpackPack(x: nat)
    requires x > 0
    ensures Pack(Unpack(x).0, Unpack(x).1) == x && (Unpack(x).1 < 9 ==> Unpack(x).0 % 10 != 0)
  {
    var e, y := (x - 1) % 10, (x - 1) / 10;
    if e < 9 {
      var m := y / 9 * 10 + (y % 9 + 1);
      assert m / 10 == y / 9 && m % 10 == y % 9 + 1;
    }
  }

  /** Without a bound on numbers, compression is a bijection. */
  lemma AmountRoundTrip(n: nat)
    ensures DecompressAmount(CompressAmount(n)) == n && CompressAmount(DecompressAmount(n)) == n
  {
    hide Pack, Unpack, Pow;
    if n > 0 {
      StripIs(n, 0);
      PackUnpack(Strip(n, 0).0, Strip(n, 0).1);
      UnpackPack(n);
      var m, e := Unpack(n).0, Unpack(n).1;
      StripPower(m, e, 0);
      Positive(e);
      MulMono(m, 1, Pow(10, e));
    }
  }

  lemma Positive(e: nat)
    ensures Pow(10, e) >= 1
  {
  }

  // ------------------------------------------------------------------ 64 bits

  function Code64(u: nat): (x: nat)
    ensures x < W64
  {
    CompressAmount(u) % W64
  }

  function Amount64(x: nat): (u: nat)
    ensures u < W64
  {
    DecompressAmount(x) % W64
  }

  /** Up to the limit on money, no value on the way leaves 64 bits. */
  lemma AmountFits(n: nat)
    requires n <= MAX_MONEY
    ensures var (m, _) := Strip(n, 0); m <= n && m / 10 * 9 + m % 10 < W64 && (m / 10 * 9 + m % 10) * 10 < W64 && m * 10 < W64
    ensures CompressAmount(n) < W64
  {
    hide Pow;
    if n > 0 {
      StripIs(n, 0);
      var m, e := Strip(n, 0).0, Strip(n, 0).1;
      Positive(e);
      MulMono(m, 1, Pow(10, e));
    }
  }

  /** The code of an amount is about nine times as large, or no larger if the amount ends in zero. */
  lemma CodeIs(n: nat)
    ensures n % 10 != 0 ==> CompressAmount(n) == 9 * n + n % 10 - 9
    ensures n % 10 == 0 ==> CompressAmount(n) <= n
  {
    hide Pow;
    if n > 0 {
      StripIs(n, 0);
      var m, e := Strip(n, 0).0, Strip(n, 0).1;
      if e == 0 { assert m * Pow(10, 0) == m by { One(m); } } else { TenTimes(m, e); }
    }
  }

  lemma TenTimes(m: nat, e: nat)
    requires e > 0
    ensures 10 * m <= m * Pow(10, e)
  {
    Positive(e - 1);
    MulMono(m, 10, Pow(10, e));
  }

  /** What the low 64 bits of such a code stand for: the amount less a constant, with zeros. */
  lemma LowCode(u: nat, k: nat, e: nat, d: nat)
    requires u % 10 != 0 && e < 9 && k * W64 + e == 10 * d && 9 * u + u % 10 - 9 > k * W64
    ensures var a := d + d / 9;
            Unpack(9 * u + u % 10 - 9 - k * W64) == (u - a, e) || Unpack(9 * u + u % 10 - 9 - k * W64) == (u - a - 1, e)
  {
    var n, l := u / 10, u % 10;
    var y := 9 * n + l - 1 - d;
    assert 9 * u + l - 9 - k * W64 - 1 == 10 * y + e;
    Ninths(n, l, d);
  }

  lemma Ninths(n: nat, l: nat, d: nat)
    requires 1 <= l <= 9 && 9 * n + l - 1 >= d
    ensures var y := 9 * n + l - 1 - d; var m := y / 9 * 10 + y % 9 + 1; m == 10 * n + l - d - d / 9 || m == 10 * n + l - d - d / 9 - 1
  {
    var q, r := d / 9, d % 9;
    var y := 9 * n + l - 1 - d;
    if l - 1 >= r { DivModIs(y, 9, n - q, l - 1 - r); } else { DivModIs(y, 9, n - q - 1, l + 8 - r); }
  }

  /** Modulo 2^64, u * (p - 1) determines u: i is the inverse of p - 1. */
  lemma OnlyOne(u: nat, a: nat, p: nat, t: int, i: int, j: int, r: nat, z: int)
    requires u < W64 && r < W64 && (u - a) * p == u + t * W64 && i * (p - 1) == 1 + j * W64 && i * (a * p) == r + z * W64
    ensures u == r
  {
    assert u * p - u == a * p + t * W64;
    assert i * (u * p - u) == r + z * W64 + i * (t * W64);
    assert i * (u * p - u) == u * (i * (p - 1)) == u + u * (j * W64);
    var s := z + i * t - u * j;
    assert u - r == s * W64;
  }

  lemma NotOnly(u: nat, a: nat, p: nat, t: int, i: int, j: int, r: nat, z: int)
    requires u < W64 && r < W64 && u != r && i * (p - 1) == 1 + j * W64 && i * (a * p) == r + z * W64
    ensures (u - a) * p != u + t * W64
  {
    if (u - a) * p == u + t * W64 { OnlyOne(u, a, p, t, i, j, r, z); }
  }

  /** An amount that does not end in zero and whose code lies in the k-th stretch of 2^64. */
  ghost predicate Beyond(u: nat, k: nat) { u < W64 && u % 10 != 0 && k * W64 < 9 * u + u % 10 - 9 < (k + 1) * W64 }

  /** The low 64 bits of its code do not stand for it, in 64 bits. */
  ghost predicate Lost(u: nat, k: nat)
    requires Beyond(u, k)
  {
    var (m, e) := Unpack(9 * u + u % 10 - 9 - k * W64);
    forall t: int :: m * Pow(10, e) != u + t * W64
  }

  /** The two amounts that solve the equation modulo 2^64, r and r', are not in that stretch. */
  lemma Excluded(u: nat, k: nat, e: nat, d: nat, i: int, j: int, r: nat, z: int, r': nat, z': int)
    requires Beyond(u, k) && e < 9 && k * W64 + e == 10 * d && r < W64 && r' < W64 && !Beyond(r, k) && !Beyond(r', k)
    requires var a, p := d + d / 9, Pow(10, e); i * (p - 1) == 1 + j * W64 && i * (a * p) == r + z * W64 && i * ((a + 1) * p) == r' + z' * W64
    ensures Lost(u, k)
  {
    hide Pow, Beyond, Unpack;
    assert 9 * u + u % 10 - 9 > k * W64 && u % 10 != 0 && u < W64 by { Unfold(u, k); }
    LowCode(u, k, e, d);
    var a, p, m := d + d / 9, Pow(10, e), Unpack(9 * u + u % 10 - 9 - k * W64).0;
    assert u != r && u != r';
    forall t: int ensures m * p != u + t * W64 {
      if m == u - a { NotOnly(u, a, p, t, i, j, r, z); } else { NotOnly(u, a + 1, p, t, i, j, r', z'); }
    }
  }

  lemma Unfold(u: nat, k: nat)
    requires Beyond(u, k)
    ensures 9 * u + u % 10 - 9 > k * W64 && u % 10 != 0 && u < W64
  {
  }

  /** In the fifth stretch there are no zeros, and the amount is off by a constant. */
  lemma Fifth(u: nat)
    requires Beyond(u, 5)
    ensures Lost(u, 5)
  {
    LowCode(u, 5, 0, 9223372036854775808);
    assert Pow(10, 0) == 1;
  }

  lemma AllLost(u: nat, k: nat)
    requires Beyond(u, k) && 1 <= k <= 8
    ensures Lost(u, k)
  {
    hide Lost;
    TenPowers();
    match k {
      case 1 =>
        assert !Beyond(15288550632769423584, 1) && !Beyond(10300052185393623248, 1);
        Excluded(u, 1, 4, 1844674407370955162, 13458245626333751279, 7295, 15288550632769423584, 14953606251481945867176, 10300052185393623248, 14953606251481945874472);
      case 2 =>
        assert !Beyond(14480868974329830400, 2) && !Beyond(14781022037580233472, 2);
        Excluded(u, 2, 8, 3689348814741910324, 300153063250403071, 1627133, 14480868974329830400, 6670068072231179356278725, 14781022037580233472, 6670068072231179357905858);
      case 3 =>
        assert !Beyond(1925417731599313468, 3) && !Beyond(14595908610510924680, 3);
        Excluded(u, 3, 2, 5534023222112865485, 12670490878911611211, 68, 1925417731599313468, 422349695963720373677, 14595908610510924680, 422349695963720373745);
      case 4 =>
        assert !Beyond(14161661572577611840, 4) && !Beyond(15833915935345966592, 4);
        Excluded(u, 4, 6, 7378697629483820647, 1672254362768354751, 90653, 14161661572577611840, 743224161230379889323260, 15833915935345966592, 743224161230379889413913);
      case 5 => Fifth(u);
      case 6 =>
        assert !Beyond(4486081875444583760, 6) && !Beyond(17944327501778335040, 6);
        Excluded(u, 6, 4, 11068046444225730970, 13458245626333751279, 7295, 4486081875444583760, 89721637508891675195765, 17944327501778335040, 89721637508891675203060);
      case 7 =>
        assert !Beyond(4266028162630124288, 7) && !Beyond(4566181225880527360, 7);
        Excluded(u, 7, 8, 12912720851596686132, 300153063250403071, 1627133, 4266028162630124288, 23345238252809127745348407, 4566181225880527360, 23345238252809127746975540);
      case 8 =>
        assert !Beyond(7432526512302726184, 8) && !Beyond(1656273317504785780, 8);
        Excluded(u, 8, 2, 14757395258967641293, 12670490878911611211, 68, 7432526512302726184, 1126265855903254329851, 1656273317504785780, 1126265855903254329920);
    }
  }

  lemma TenPowers()
    ensures Pow(10, 2) == 100 && Pow(10, 4) == 10000 && Pow(10, 6) == 1000000 && Pow(10, 8) == 100000000
  {
    assert Pow(10, 3) == 1000 && Pow(10, 5) == 100000 && Pow(10, 7) == 10000000;
  }

  /** Amounts that end in zero, and those of which nine times as much, but for the last digit, fits
      64 bits. */
  predicate Keeps(u: nat) { u % 10 == 0 || 9 * u + u % 10 - 9 < W64 }

  /** These are the amounts whose codes fit. */
  lemma KeepsIff(u: nat)
    requires u < W64
    ensures Keeps(u) <==> CompressAmount(u) < W64
  {
    CodeIs(u);
  }

  /** In 64 bits an amount comes back if and only if its code fits: no other amount is saved by a
      second wrap. */
  lemma AmountKept(u: nat)
    requires u < W64
    ensures Amount64(Code64(u)) == u <==> Keeps(u)
  {
    hide CompressAmount, DecompressAmount, Lost;
    AmountRoundTrip(u);
    KeepsIff(u);
    var c := CompressAmount(u);
    if c >= W64 {
      CodeIs(u);
      var k, x := c / W64, c % W64;
      if x == 0 {
        assert DecompressAmount(0) == 0 by { Zero(); }
      } else {
        assert Beyond(u, k);
        AllLost(u, k);
        LostIs(u, k, x);
      }
    }
  }

  lemma Zero()
    ensures DecompressAmount(0) == 0
  {
  }

  lemma LostIs(u: nat, k: nat, x: nat)
    requires Beyond(u, k) && Lost(u, k) && x == 9 * u + u % 10 - 9 - k * W64
    ensures Amount64(x) != u
  {
    hide Pow;
    var n := DecompressAmount(x);
    assert n == n % W64 + n / W64 * W64;
  }

  /** Sums and products wrap; taking the remainder once gives the same. */
  method Compress(amount: nat) returns (x: nat)
    requires amount < W64
    ensures x == Code64(amount)
  {
    if amount == 0 { return 0; }
    StripIs(amount, 0);
    var n: nat, e: nat := amount, 0;
    while n % 10 == 0 && e < 9
      invariant e <= 9 && Strip(n, e) == Strip(amount, 0)
      decreases 9 - e
    {
      n := n / 10;
      e := e + 1;
    }
    if e < 9 {
      var d := n % 10;
      assert 1 <= d <= 9;
      n := n / 10;
      return (1 + (n * 9 + d - 1) * 10 + e) % W64;
    } else {
      return (1 + (n - 1) * 10 + 9) % W64;
    }
  }

  method Decompress(code: nat) returns (n: nat)
    requires code < W64
    ensures n == Amount64(code)
  {
    hide Pow;
    assert DecompressAmount(0) == 0;
    if code == 0 { return 0; }
    var x := code - 1;
    var e := x % 10;
    x := x / 10;
    if e < 9 {
      var d := x % 9 + 1;
      x := x / 9;
      n := x * 10 + d;
    } else {
      n := x + 1;
    }
    ghost var m, k := n, e;
    assert (m, k) == Unpack(code) && m < W64;
    assert n == m * Pow(10, 0) % W64 by { One(m); }
    while e > 0
      invariant 0 <= e <= k && n == m * Pow(10, k - e) % W64
    {
      NextPower(m, k - e);
      n := n * 10 % W64;
      e := e - 1;
    }
  }

  lemma One(m: nat)
    ensures m * Pow(10, 0) == m
  {
  }

  lemma NextPower(m: nat, j: nat)
    ensures m * Pow(10, j) % W64 * 10 % W64 == m * Pow(10, j + 1) % W64
  {
    var x := m * Pow(10, j);
    MulAssoc(m, Pow(10, j), 10);
    assert x * 10 == m * Pow(10, j + 1);
    TenMod(x);
  }

  lemma TenMod(x: nat)
    ensures x % W64 * 10 % W64 == x * 10 % W64
  {
    var q := x / W64;
    assert x * 10 == x % W64 * 10 + 10 * q * W64;
    DivModIs(x * 10, W64, 10 * q + x % W64 * 10 / W64, x % W64 * 10 % W64);
  }

  const LEAST_LOST: nat := 2_049_638_230_412_172_403

  /** The least amount that does not come back. */
  lemma FirstLost()
    ensures Amount64(Code64(LEAST_LOST)) != LEAST_LOST
    ensures forall n: nat | n < LEAST_LOST :: Amount64(Code64(n)) == n
  {
    hide CompressAmount, Amount64, Code64;
    CodeIs(LEAST_LOST);
    AmountKept(LEAST_LOST);
    forall n: nat | n < LEAST_LOST ensures Amount64(Code64(n)) == n {
      CodeIs(n);
      AmountKept(n);
    }
  }
}
