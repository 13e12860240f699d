/** Positional notation, most significant digit first, and the conversion between two bases that
    keeps leading zeros (src/base58.cpp). */
module Radix {
  import opened Powers

  predicate InBase(base: nat, s: seq<nat>) { forall i | 0 <= i < |s| :: s[i] < base }

  function Num(base: nat, s: seq<nat>): nat {
    if s == [] then 0 else Num(base, s[..|s| - 1]) * base + s[|s| - 1]
  }

  /** The shortest notation. */
  function Digits(base: nat, v: nat): seq<nat>
    requires base >= 2
  {
    if v == 0 then [] else Digits(base, v / base) + [v % base]
  }

  function LeadingZeros(s: seq<nat>): nat { if s != [] && s[0] == 0 then 1 + LeadingZeros(s[1..]) else 0 }

  function Zeros(n: nat): seq<nat> { seq(n, i => 0) }

  /** The notation in base c of a number written in base a, with as many leading zeros. */
  function Recode(a: nat, c: nat, s: seq<nat>): seq<nat>
    requires c >= 2
  {
    Zeros(LeadingZeros(s)) + Digits(c, Num(a, s))
  }

  // -------------------------------------------------------------------- numbers

  lemma NumNext(base: nat, s: seq<nat>, i: nat)
    requires i < |s|
    ensures Num(base, s[..i + 1]) == Num(base, s[..i]) * base + s[i]
  {
    assert s[..i + 1][..i] == s[..i];
  }

  lemma {:induction false} NumConcat(base: nat, s: seq<nat>, t: seq<nat>)
    ensures Num(base, s + t) == Num(base, s) * Pow(base, |t|) + Num(base, t)
    decreases |t|
  {
    if t == [] {
      assert s + t == s;
    } else {
      var n := |t| - 1;
      assert (s + t)[..|s + t| - 1] == s + t[..n];
      NumConcat(base, s, t[..n]);
      assert Pow(base, |t|) == base * Pow(base, n);
      Regroup(Num(base, s), Pow(base, n), Num(base, t[..n]), base);
    }
  }

  lemma Regroup(x: nat, p: nat, y: nat, base: nat)
    ensures (x * p + y) * base == x * (base * p) + y * base
  {
    MulDistrib(x * p, y, base);
    MulAssoc(x, p, base);
  }

  lemma {:induction false} NumBound(base: nat, s: seq<nat>)
    requires InBase(base, s)
    ensures Num(base, s) < Pow(base, |s|)
  {
    if s != [] {
      var n := |s| - 1;
      NumBound(base, s[..n]);
      MulMono(base, Num(base, s[..n]) + 1, Pow(base, n));
      MulDistrib(Num(base, s[..n]), 1, base);
    }
  }

  lemma {:induction false} NumZeros(base: nat, n: nat)
    ensures Num(base, Zeros(n)) == 0
  {
    if n > 0 {
      assert Zeros(n)[..n - 1] == Zeros(n - 1);
      NumZeros(base, n - 1);
    }
  }

  lemma NumPadded(base: nat, n: nat, s: seq<nat>)
    ensures Num(base, Zeros(n) + s) == Num(base, s)
  {
    NumConcat(base, Zeros(n), s);
    NumZeros(base, n);
  }

  // --------------------------------------------------------------------- digits

  lemma {:induction false} DigitsNum(base: nat, v: nat)
    requires base >= 2
    ensures Num(base, Digits(base, v)) == v && InBase(base, Digits(base, v))
    ensures Digits(base, v) != [] ==> Digits(base, v)[0] != 0
  {
    if v > 0 {
      var rest := Digits(base, v / base);
      DigitsNum(base, v / base);
      var all := rest + [v % base];
      assert all[..|rest|] == rest;
      Quotient(v, base);
    }
  }

  lemma Quotient(v: nat, base: nat)
    requires base >= 2
    ensures v == v / base * base + v % base && v % base < base
  {
  }

  /** A notation without leading zero is the shortest one. */
  lemma {:induction false} NumDigits(base: nat, s: seq<nat>)
    requires base >= 2 && InBase(base, s) && (s != [] ==> s[0] != 0)
    ensures Digits(base, Num(base, s)) == s
  {
    if s != [] {
      var n := |s| - 1;
      NumDigits(base, s[..n]);
      DivModIs(Num(base, s), base, Num(base, s[..n]), s[n]);
      if n > 0 { assert Num(base, s[..n]) != 0 by { assert Digits(base, Num(base, s[..n])) != []; } }
    }
  }

  lemma {:induction false} Leading(s: seq<nat>)
    ensures var k := LeadingZeros(s); k <= |s| && s == Zeros(k) + s[k..] && (s[k..] != [] ==> s[k] != 0)
  {
    if s != [] && s[0] == 0 {
      Leading(s[1..]);
      var k := LeadingZeros(s[1..]);
      assert s[1..][k..] == s[k + 1..];
      assert Zeros(k + 1) == [0] + Zeros(k);
      assert s == [s[0]] + s[1..];
    } else {
      assert s == Zeros(0) + s[0..];
    }
  }

  lemma {:induction false} LeadingPadded(k: nat, s: seq<nat>)
    requires s != [] ==> s[0] != 0
    ensures LeadingZeros(Zeros(k) + s) == k
  {
    if k == 0 {
      assert Zeros(0) + s == s;
    } else {
      LeadingPadded(k - 1, s);
      assert (Zeros(k) + s)[1..] == Zeros(k - 1) + s;
    }
  }

  /** Converting back gives the original digits. */
  lemma RoundTrip(a: nat, c: nat, s: seq<nat>)
    requires a >= 2 && c >= 2 && InBase(a, s)
    ensures Recode(c, a, Recode(a, c, s)) == s && InBase(c, Recode(a, c, s))
  {
    var k, v := LeadingZeros(s), Num(a, s);
    Leading(s);
    DigitsNum(c, v);
    LeadingPadded(k, Digits(c, v));
    NumPadded(c, k, Digits(c, v));
    NumPadded(a, k, s[k..]);
    NumDigits(a, s[k..]);
  }

  // ------------------------------------------------------------------- capacity

  lemma {:induction false} PowMono(b: nat, m: nat, n: nat)
    requires m <= n && b >= 1
    ensures 1 <= Pow(b, m) <= Pow(b, n)
    decreases n
  {
    if m < n { PowMono(b, m, n - 1); MulMono(Pow(b, n - 1), 1, b); } else if n > 0 { PowMono(b, n - 1, n - 1); MulMono(Pow(b, n - 1), 1, b); }
  }

  /** If x digits of base a fit in y digits of base c, then q times as many do. */
  lemma {:induction false} Fits(a: nat, x: nat, c: nat, y: nat, q: nat)
    requires a >= 1 && c >= 1 && Pow(a, x) <= Pow(c, y)
    ensures Pow(a, x * q) <= Pow(c, y * q)
    decreases q
  {
    if q > 0 {
      Fits(a, x, c, y, q - 1);
      FitsTogether(a, x, c, y, x * (q - 1), y * (q - 1));
      assert x * q == x + x * (q - 1) && y * q == y + y * (q - 1);
    }
  }

  lemma FitsTogether(a: nat, x: nat, c: nat, y: nat, x': nat, y': nat)
    requires Pow(a, x) <= Pow(c, y) && Pow(a, x') <= Pow(c, y')
    ensures Pow(a, x + x') <= Pow(c, y + y')
  {
    PowAdd(a, x, x');
    PowAdd(c, y, y');
    MulMono(Pow(a, x'), Pow(a, x), Pow(c, y));
    MulMono(Pow(c, y), Pow(a, x'), Pow(c, y'));
  }

  /** Room for n bytes in base 58: eight bytes take at most eleven digits. */
  lemma RoomFor58(n: nat)
    ensures Pow(256, n) <= Pow(58, n * 138 / 100 + 1)
  {
    hide Pow;
    var q, r := n / 8, n % 8;
    EightBytes();
    Fits(256, 8, 58, 11, q);
    FewBytes(r);
    FitsTogether(256, 8 * q, 58, 11 * q, r, r * 138 / 100 + 1);
    Eighths(n, q, r);
    PowMono(58, 11 * q + (r * 138 / 100 + 1), n * 138 / 100 + 1);
  }

  lemma Eighths(n: nat, q: nat, r: nat)
    requires q == n / 8 && r == n % 8
    ensures n == 8 * q + r && 11 * q + (r * 138 / 100 + 1) <= n * 138 / 100 + 1
  {
  }

  lemma EightBytes()
    ensures Pow(256, 8) <= Pow(58, 11)
  {
    hide Pow;
    Powers256();
    Powers58();
    PowAdd(256, 4, 4);
    PowAdd(58, 8, 3);
  }

  lemma Powers256()
    ensures Pow(256, 0) == 1 && Pow(256, 1) == 0x100 && Pow(256, 2) == 0x1_0000 && Pow(256, 3) == 0x100_0000
    ensures Pow(256, 4) == 0x1_0000_0000
  {
  }

  lemma Powers58()
    ensures Pow(58, 0) == 1 && Pow(58, 1) == 58 && Pow(58, 2) == 3364 && Pow(58, 3) == 195112 && Pow(58, 4) == 11316496
    ensures Pow(58, 5) == 656356768 && Pow(58, 6) == 38068692544 && Pow(58, 7) == 2207984167552
    ensures Pow(58, 8) == 128063081718016
  {
    assert Pow(58, 2) == 58 * Pow(58, 1) && Pow(58, 3) == 58 * Pow(58, 2) && Pow(58, 4) == 58 * Pow(58, 3);
    PowAdd(58, 4, 1);
    PowAdd(58, 4, 2);
    PowAdd(58, 4, 3);
    PowAdd(58, 4, 4);
  }

  lemma FewBytes(r: nat)
    requires r < 8
    ensures Pow(256, r) <= Pow(58, r * 138 / 100 + 1)
  {
    hide Pow;
    Powers256();
    Powers58();
    if r > 4 { PowAdd(256, 4, r - 4); }
    if r >= 6 { PowAdd(58, 8, r - 5); }
  }

  /** Room for n base-58 digits in bytes: seventy-one digits take at most fifty-two bytes. */
  lemma RoomFor256(n: nat)
    ensures Pow(58, n) <= Pow(256, n * 733 / 1000 + 1)
  {
    hide Pow;
    var q, s, t := n / 71, n % 71 / 15, n % 71 % 15;
    FifteenDigits();
    Fits(58, 71, 256, 52, q);
    Fits(58, 15, 256, 11, s);
    FewDigits(t);
    FitsTogether(58, 71 * q, 256, 52 * q, 15 * s, 11 * s);
    FitsTogether(58, 71 * q + 15 * s, 256, 52 * q + 11 * s, t, BytesFor(t));
    Remainders(n, q, s, t);
    PowMono(256, 52 * q + 11 * s + BytesFor(t), n * 733 / 1000 + 1);
  }

  lemma Remainders(n: nat, q: nat, s: nat, t: nat)
    requires q == n / 71 && s == n % 71 / 15 && t == n % 71 % 15
    ensures n == 71 * q + 15 * s + t && 52 * q + 11 * s + BytesFor(t) <= n * 733 / 1000 + 1
  {
    assert s <= 4;
    var b := BytesFor(t);
    assert 1000 * b <= t * 733 + 980;
    assert n * 733 >= 1000 * (52 * q + 11 * s + b - 1);
  }

  /** The bytes that t digits take. */
  function BytesFor(t: nat): nat { (t * 733 + 999) / 1000 }

  lemma FewDigits(t: nat)
    requires t < 15
    ensures Pow(58, t) <= Pow(256, BytesFor(t))
  {
    hide Pow;
    Powers256();
    Powers58();
    if t > 8 { PowAdd(58, 8, t - 8); }
    if BytesFor(t) > 4 { PowAdd(256, 4, BytesFor(t) - 4); }
    if BytesFor(t) > 8 { PowAdd(256, 4, BytesFor(t) - 8); }
  }

  lemma FifteenDigits()
    ensures Pow(58, 15) <= Pow(256, 11) && Pow(58, 71) <= Pow(256, 52)
  {
    hide Pow;
    Powers256();
    Powers58();
    PowAdd(58, 8, 7);
    PowAdd(256, 4, 4);
    PowAdd(256, 8, 3);
    PowAdd(58, 8, 8);
    PowAdd(58, 16, 16);
    PowAdd(58, 32, 32);
    PowAdd(58, 64, 7);
    PowAdd(256, 8, 8);
    PowAdd(256, 16, 16);
    PowAdd(256, 32, 16);
    PowAdd(256, 48, 4);
  }
}
