/** base_uint<256> (src/arith_uint256.h, src/arith_uint256.cpp): in-place arithmetic on eight
    32-bit limbs, equal to integer arithmetic modulo 2^256. */
module Arith256 {
  import opened Powers

  const WIDTH: nat := 8
  const B: nat := 0x1_0000_0000

  function P(i: nat): nat { Pow(B, i) }

  /** The number that little-endian limbs stand for. */
  function Val(s: seq<nat>): nat {
    if s == [] then 0 else Val(s[..|s| - 1]) + s[|s| - 1] * P(|s| - 1)
  }

  predicate Limbs(s: seq<nat>) { forall i | 0 <= i < |s| :: s[i] < B }

  lemma ValNext(s: seq<nat>, i: nat)
    requires i < |s|
    ensures Val(s[..i + 1]) == Val(s[..i]) + s[i] * P(i)
  {
    assert s[..i + 1][..i] == s[..i];
  }

  lemma {:induction false} ValBound(s: seq<nat>)
    requires Limbs(s)
    ensures Val(s) < P(|s|)
  {
    if s != [] {
      var n := |s| - 1;
      ValBound(s[..n]);
      MulMono(P(n), s[n], B - 1);
      assert P(|s|) == B * P(n) == (B - 1) * P(n) + P(n);
    }
  }

  /** Equal prefixes stand for equal numbers. */
  lemma {:induction false} ValSame(s: seq<nat>, t: seq<nat>, n: nat)
    requires n <= |s| && n <= |t| && forall i | 0 <= i < n :: s[i] == t[i]
    ensures Val(s[..n]) == Val(t[..n])
  {
    assert s[..n] == t[..n];
  }

  /** One step of a carry chain. */
  lemma Carry(n: nat, i: nat)
    ensures n == n % B + B * (n / B)
    ensures n * P(i) == (n % B) * P(i) + (n / B) * P(i + 1)
  {
    var lo, hi := n % B, n / B;
    assert P(i + 1) == B * P(i);
    assert n == lo + B * hi;
    MulDistrib(lo, B * hi, P(i));
    assert (B * hi) * P(i) == hi * (B * P(i));
  }

  /** A carry chain that ends with a carry is the result modulo the size of the register. */
  lemma Wraps(x: nat, total: nat, carry: nat, m: nat)
    requires 0 <= x < m && x + carry * m == total
    ensures x == total % m
  {
    DivModIs(total, m, carry, x);
  }

  lemma Sum3(a: nat, b: nat, c: nat, p: nat)
    ensures (a + b + c) * p == a * p + b * p + c * p
  {
    MulDistrib(a + b, c, p);
    MulDistrib(a, b, p);
  }

  lemma ValWhole(s: seq<nat>)
    requires |s| == WIDTH
    ensures s[..WIDTH] == s && Val(s[..0]) == 0
  {
  }

  /** Limb i takes the low part of the sum of a carry c and d, and the high part is carried. */
  lemma CarryLimb(before: seq<nat>, after: seq<nat>, i: nat, c: nat, d: nat, total: int)
    requires i < |before| == |after| && (forall k | 0 <= k < i :: before[k] == after[k]) && after[i] == (c + d) % B
    requires Val(before[..i]) + c * P(i) == total
    ensures Val(after[..i + 1]) + (c + d) / B * P(i + 1) == total + d * P(i)
  {
    hide Val, P;
    ValSame(before, after, i);
    ValNext(after, i);
    Carry(c + d, i);
    MulDistrib(c, d, P(i));
  }

  lemma SumStep(x: seq<nat>, y: seq<nat>, before: seq<nat>, after: seq<nat>, i: nat, c: nat, n: nat)
    requires i < |before| == |after| && i < |x| && i < |y| && n == c + x[i] + y[i]
    requires (forall k | 0 <= k < i :: before[k] == after[k]) && after[i] == n % B
    requires Val(before[..i]) + c * P(i) == Val(x[..i]) + Val(y[..i])
    ensures Val(after[..i + 1]) + n / B * P(i + 1) == Val(x[..i + 1]) + Val(y[..i + 1])
  {
    hide Val, P;
    ValNext(x, i);
    ValNext(y, i);
    CarryLimb(before, after, i, c, x[i] + y[i], Val(x[..i]) + Val(y[..i]));
    MulDistrib(x[i], y[i], P(i));
  }

  method Add(a: array<nat>, b: array<nat>)
    requires a.Length == WIDTH && b.Length == WIDTH && Limbs(a[..]) && Limbs(b[..])
    modifies a
    ensures Limbs(a[..])
    ensures Val(a[..]) == (old(Val(a[..])) + old(Val(b[..]))) % P(WIDTH)
  {
    hide Val, P;
    ghost var x, y := a[..], b[..];
    ValWhole(x);
    ValWhole(y);
    var carry: nat := 0;
    for i := 0 to WIDTH
      invariant Limbs(a[..]) && carry <= 1 && forall k | i <= k < WIDTH :: a[k] == x[k] && b[k] == y[k]
      invariant Val(a[..][..i]) + carry * P(i) == Val(x[..i]) + Val(y[..i])
    {
      var n: nat := carry + a[i] + b[i];
      ghost var before, c := a[..], carry;
      a[i] := n % B;
      carry := n / B;
      SumStep(x, y, before, a[..], i, c, n);
    }
    ValBound(a[..]);
    ValWhole(a[..]);
    Wraps(Val(a[..]), Val(x) + Val(y), carry, P(WIDTH));
  }

  /** Where only the limbs below i differ, so do the numbers. */
  lemma {:induction false} SameAbove(s: seq<nat>, t: seq<nat>, i: nat)
    requires i <= |s| == |t| && forall k | i <= k < |s| :: s[k] == t[k]
    ensures Val(s) - Val(t) == Val(s[..i]) - Val(t[..i])
    decreases |s| - i
  {
    if i == |s| {
      assert s[..i] == s && t[..i] == t;
    } else {
      ValNext(s, i);
      ValNext(t, i);
      SameAbove(s, t, i + 1);
    }
  }

  /** The limb that takes a carry of one. */
  lemma CarryOne(x: seq<nat>, before: seq<nat>, after: seq<nat>, i: nat)
    requires i < |x| == |before| == |after| && x[i] < B && after[i] == (x[i] + 1) % B && forall k | 0 <= k < i :: before[k] == after[k]
    requires Val(before[..i]) + P(i) == Val(x[..i]) + 1
    ensures Val(after[..i + 1]) + (if after[i] == 0 then P(i + 1) else 0) == Val(x[..i + 1]) + 1
  {
    hide Val, P;
    ValNext(x, i);
    CarryLimb(before, after, i, 1, x[i], Val(x[..i]) + 1);
  }

  lemma FirstPowers()
    ensures P(0) == 1 && P(1) == B
  {
  }

  method Increment(a: array<nat>)
    requires a.Length == WIDTH && Limbs(a[..])
    modifies a
    ensures Limbs(a[..]) && Val(a[..]) == (old(Val(a[..])) + 1) % P(WIDTH)
  {
    hide Val, P;
    ghost var x := a[..];
    ValWhole(x);
    FirstPowers();
    var i: nat := 0;
    a[0] := (a[0] + 1) % B;
    ValNext(x, 0);
    ValNext(a[..], 0);
    ValWhole(a[..]);
    while a[i] == 0 && i < WIDTH - 1
      invariant i < WIDTH && Limbs(a[..]) && forall k | i < k < WIDTH :: a[k] == x[k]
      invariant Val(a[..][..i + 1]) + (if a[i] == 0 then P(i + 1) else 0) == Val(x[..i + 1]) + 1
    {
      i := i + 1;
      ghost var before := a[..];
      a[i] := (a[i] + 1) % B;
      CarryOne(x, before, a[..], i);
    }
    SameAbove(a[..], x, i + 1);
    ValBound(a[..]);
    Wraps(Val(a[..]), Val(x) + 1, if a[i] == 0 then 1 else 0, P(WIDTH));
  }

  lemma PowerFacts()
    ensures P(0) == 1 && P(1) == B
    ensures P(WIDTH) == 0x1_0000_0000_0000_0000_0000_0000_0000_0000_0000_0000_0000_0000_0000_0000_0000_0000
  {
    assert P(2) == B * P(1) && P(3) == B * P(2) && P(4) == B * P(3);
    assert P(5) == B * P(4) && P(6) == B * P(5) && P(7) == B * P(6) && P(8) == B * P(7);
  }

  lemma {:induction false} PositivePower(i: nat)
    ensures P(i) > 0
  {
    if i > 0 { PositivePower(i - 1); }
  }

  method Not(a: array<nat>) returns (r: array<nat>)
    requires a.Length == WIDTH && Limbs(a[..])
    ensures fresh(r) && r.Length == WIDTH && Limbs(r[..]) && Val(r[..]) == P(WIDTH) - 1 - Val(a[..])
  {
    hide Val, P;
    PowerFacts();
    r := new nat[WIDTH](i => 0);
    ValWhole(r[..]);
    ValWhole(a[..]);
    for i := 0 to WIDTH
      invariant Limbs(r[..]) && Val(r[..][..i]) + Val(a[..][..i]) + 1 == P(i)
    {
      ghost var before := r[..];
      r[i] := B - 1 - a[i];
      ValNext(r[..], i);
      ValNext(a[..], i);
      ValSame(before, r[..], i);
      Sum3(r[i], a[i], 1, P(i));
      NextPower(i);
    }
    ValWhole(r[..]);
  }

  lemma NextPower(i: nat)
    ensures P(i + 1) == B * P(i)
  {
  }

  method Negate(a: array<nat>) returns (r: array<nat>)
    requires a.Length == WIDTH && Limbs(a[..])
    ensures fresh(r) && r.Length == WIDTH && Limbs(r[..]) && Val(r[..]) == (P(WIDTH) - Val(a[..])) % P(WIDTH)
  {
    hide Val, P;
    r := Not(a);
    Increment(r);
  }

  method Sub(a: array<nat>, b: array<nat>)
    requires a.Length == WIDTH && b.Length == WIDTH && Limbs(a[..]) && Limbs(b[..])
    modifies a
    ensures Limbs(a[..]) && Val(a[..]) == (old(Val(a[..])) - old(Val(b[..]))) % P(WIDTH)
  {
    hide Val, P;
    ghost var x, y, m := Val(a[..]), Val(b[..]), P(WIDTH);
    PowerFacts();
    var nb := Negate(b);
    Add(a, nb);
    ModNegate(x, y, m);
  }

  lemma ModNegate(x: nat, y: nat, m: nat)
    requires m > 0
    ensures (x + (m - y) % m) % m == (x - y) % m
  {
    var q, r := (m - y) / m, (m - y) % m;
    assert m - y == m * q + r;
    ModShift(x - y, m, 1 - q);
    assert x + r == x - y + m * (1 - q);
  }

  // ------------------------------------------------------------- comparison

  /** The topmost limb that differs decides. */
  lemma CompareAt(s: seq<nat>, t: seq<nat>, i: nat)
    requires i < |s| == |t| && Limbs(s) && Limbs(t) && s[i] < t[i] && forall k | i < k < |s| :: s[k] == t[k]
    ensures Val(s) < Val(t)
  {
    hide Val, P;
    SameAbove(s, t, i + 1);
    ValNext(s, i);
    ValNext(t, i);
    ValBound(s[..i]);
    MulMono(P(i), s[i] + 1, t[i]);
    MulDistrib(s[i], 1, P(i));
  }

  method CompareTo(a: array<nat>, b: array<nat>) returns (r: int)
    requires a.Length == WIDTH && b.Length == WIDTH && Limbs(a[..]) && Limbs(b[..])
    ensures (r < 0 <==> Val(a[..]) < Val(b[..])) && (r > 0 <==> Val(a[..]) > Val(b[..]))
  {
    hide Val;
    for i := WIDTH downto 0
      invariant forall k | i <= k < WIDTH :: a[k] == b[k]
    {
      if a[i] < b[i] {
        CompareAt(a[..], b[..], i);
        return -1;
      }
      if a[i] > b[i] {
        CompareAt(b[..], a[..], i);
        return 1;
      }
    }
    assert a[..] == b[..];
    return 0;
  }

  // ---------------------------------------------------------- multiplication

  method MulWord(a: array<nat>, b32: nat)
    requires a.Length == WIDTH && Limbs(a[..]) && b32 < B
    modifies a
    ensures Limbs(a[..]) && Val(a[..]) == (old(Val(a[..])) * b32) % P(WIDTH)
  {
    hide Val, P;
    ghost var x := a[..];
    ValWhole(x);
    var carry: nat := 0;
    for i := 0 to WIDTH
      invariant Limbs(a[..]) && carry < B && forall k | i <= k < WIDTH :: a[k] == x[k]
      invariant Val(a[..][..i]) + carry * P(i) == Val(x[..i]) * b32
    {
      WordProduct(carry, 0, b32, a[i]);
      var n: nat := carry + b32 * a[i];
      ghost var before, c := a[..], carry;
      a[i] := n % B;
      carry := n / B;
      ValNext(x, i);
      CarryLimb(before, a[..], i, c, b32 * x[i], Val(x[..i]) * b32);
      WordTerm(Val(x[..i]), x[i], P(i), b32);
    }
    ValBound(a[..]);
    ValWhole(a[..]);
    Wraps(Val(a[..]), Val(x) * b32, carry, P(WIDTH));
  }

  lemma WordTerm(v: nat, x: nat, p: nat, w: nat)
    ensures (v + x * p) * w == v * w + w * x * p
  {
    MulDistrib(v, x * p, w);
    MulAssoc(w, x, p);
  }

  /** A product of limbs with two carries fits in 64 bits. */
  lemma WordProduct(c: nat, d: nat, x: nat, y: nat)
    requires c < B && d < B && x < B && y < B
    ensures c + d + x * y < B * B && (c + d + x * y) / B < B
  {
    MulMono(x, y, B - 1);
    MulMono(B - 1, x, B - 1);
  }

  /** The limbs of b from k on weigh P(k) each. */
  lemma {:induction false} ValSplit(s: seq<nat>, k: nat)
    requires k <= |s|
    ensures Val(s) == Val(s[..k]) + Val(s[k..]) * P(k)
    decreases |s|
  {
    if k == |s| {
      assert s[..k] == s && s[k..] == [];
    } else {
      var n := |s| - 1;
      ValSplit(s[..n], k);
      assert s[..n][..k] == s[..k] && s[..n][k..] == s[k..][..n - k] && s[k..][n - k] == s[n];
      PowAdd(B, n - k, k);
      MulAssoc(s[n], P(n - k), P(k));
      MulDistrib(Val(s[..n][k..]), s[n] * P(n - k), P(k));
    }
  }

  /** The first i limbs of aj times y have been added to x from limb j on, with a carry. */
  ghost predicate Adding(x: seq<nat>, y: seq<nat>, cur: seq<nat>, aj: nat, i: nat, j: nat, carry: nat) {
    && |x| == |cur| == |y| == WIDTH && i + j <= WIDTH
    && Val(cur[..i + j]) + carry * P(i + j) == Val(x[..i + j]) + Weight(aj, j) * Val(y[..i])
  }

  /** A limb aj at position j. */
  function Weight(aj: nat, j: nat): nat { aj * P(j) }

  /** One pass of the outer loop of operator*=: adds aj times y, shifted by j limbs, to a. */
  method AddProduct(a: array<nat>, aj: nat, y: seq<nat>, j: nat)
    requires a.Length == WIDTH == |y| && Limbs(a[..]) && Limbs(y) && aj < B && j < WIDTH
    modifies a
    ensures Limbs(a[..]) && Val(a[..]) == (old(Val(a[..])) + Weight(aj, j) * Val(y)) % P(WIDTH)
  {
    hide Val, P, Adding, Weight;
    ghost var x := a[..];
    var carry: nat := 0;
    NoneAdded(x, y, aj, j);
    for i := 0 to WIDTH - j
      invariant Limbs(a[..]) && carry < B && forall k | i + j <= k < WIDTH :: a[k] == x[k]
      invariant Adding(x, y, a[..], aj, i, j, carry)
    {
      WordProduct(carry, a[i + j], aj, y[i]);
      var n: nat := carry + a[i + j] + aj * y[i];
      ghost var before, c := a[..], carry;
      a[i + j] := n % B;
      carry := n / B;
      ProductStep(x, y, before, a[..], aj, i, j, c, n);
    }
    AllAdded(x, y, a[..], aj, j, carry);
  }

  lemma NoneAdded(x: seq<nat>, y: seq<nat>, aj: nat, j: nat)
    requires |x| == |y| == WIDTH && j <= WIDTH
    ensures Adding(x, y, x, aj, 0, j, 0)
  {
    ValWhole(y);
  }

  lemma WeightSplit(aj: nat, j: nat)
    requires j <= WIDTH
    ensures Weight(aj, j) * P(WIDTH - j) == aj * P(WIDTH)
  {
    hide P;
    Split(j);
    MulAssoc(aj, P(j), P(WIDTH - j));
  }

  lemma AllAdded(x: seq<nat>, y: seq<nat>, cur: seq<nat>, aj: nat, j: nat, carry: nat)
    requires Limbs(cur) && j <= WIDTH && Adding(x, y, cur, aj, WIDTH - j, j, carry)
    ensures P(WIDTH) > 0 && Val(cur) == (Val(x) + Weight(aj, j) * Val(y)) % P(WIDTH)
  {
    hide Val, P, Weight, Adding, Limbs;
    var k := WIDTH - j;
    PositivePower(WIDTH);
    AddedFacts(x, y, cur, aj, j, carry);
    WeightSplit(aj, j);
    Dropped(Val(cur), Val(x), Weight(aj, j), P(k), P(WIDTH), aj, Val(y[..k]), Val(y[k..]), Val(y), carry);
  }

  lemma AddedFacts(x: seq<nat>, y: seq<nat>, cur: seq<nat>, aj: nat, j: nat, carry: nat)
    requires Limbs(cur) && j <= WIDTH && Adding(x, y, cur, aj, WIDTH - j, j, carry)
    ensures |y| == WIDTH && Val(cur) < P(WIDTH)
    ensures Val(cur) + carry * P(WIDTH) == Val(x) + Weight(aj, j) * Val(y[..WIDTH - j])
    ensures Val(y) == Val(y[..WIDTH - j]) + Val(y[WIDTH - j..]) * P(WIDTH - j)
  {
    hide Val, P, Weight;
    ValBound(cur);
    ValWhole(cur);
    ValWhole(x);
    ValSplit(y, WIDTH - j);
  }

  lemma ProductStep(x: seq<nat>, y: seq<nat>, before: seq<nat>, after: seq<nat>, aj: nat, i: nat, j: nat, c: nat, n: nat)
    requires Adding(x, y, before, aj, i, j, c) && i + j < WIDTH && n == c + x[i + j] + aj * y[i]
    requires |after| == WIDTH && (forall k | 0 <= k < i + j :: before[k] == after[k]) && after[i + j] == n % B
    ensures Adding(x, y, after, aj, i + 1, j, n / B)
  {
    hide Val, P;
    ValNext(x, i + j);
    ValNext(y, i);
    CarryLimb(before, after, i + j, c, x[i + j] + aj * y[i], Val(x[..i + j]) + Weight(aj, j) * Val(y[..i]));
    MulDistrib(x[i + j], aj * y[i], P(i + j));
    ProductTerm(aj, y[i], Val(y[..i]), i, j);
  }

  lemma ProductTerm(aj: nat, yi: nat, v: nat, i: nat, j: nat)
    ensures aj * P(j) * (v + yi * P(i)) == aj * P(j) * v + aj * yi * P(i + j)
  {
    PowAdd(B, i, j);
    Rearranged(aj, yi, v, P(i), P(j));
  }

  lemma Rearranged(a: nat, y: nat, v: nat, p: nat, q: nat)
    ensures a * q * (v + y * p) == a * q * v + a * y * (p * q)
  {
    MulDistrib(v, y * p, a * q);
    assert a * q * (y * p) == a * y * (p * q);
  }

  /** What falls off the top is a multiple of the register size. */
  lemma Dropped(v: nat, x: nat, ap: nat, q: nat, m: nat, a: nat, low: nat, high: nat, total: nat, carry: nat)
    requires m > 0 && ap * q == a * m && v < m && v + carry * m == x + ap * low && total == low + high * q
    ensures v == (x + ap * total) % m
  {
    MulDistrib(low, high * q, ap);
    Lifted(ap, q, a, m, high);
    Rest(v, x + ap * low, m, carry, a * high);
  }

  lemma Lifted(ap: nat, q: nat, a: nat, m: nat, high: nat)
    requires ap * q == a * m
    ensures ap * (high * q) == m * (a * high)
  {
    assert ap * (high * q) == high * (ap * q);
    assert high * (a * m) == m * (a * high);
  }

  lemma Rest(v: nat, sum: nat, m: nat, carry: nat, k: nat)
    requires m > 0 && v < m && v + carry * m == sum
    ensures v == (sum + m * k) % m
  {
    Wraps(v, sum, carry, m);
    ModShift(sum, m, k);
  }

  lemma Split(j: nat)
    requires j <= WIDTH
    ensures P(j) * P(WIDTH - j) == P(WIDTH)
  {
    PowAdd(B, j, WIDTH - j);
  }

  /** operator*=.  The register is cleared before b is read, so multiplying a number by
      itself in place yields zero. */
  method Mul(a: array<nat>, b: array<nat>)
    requires a.Length == WIDTH && b.Length == WIDTH && Limbs(a[..]) && Limbs(b[..])
    modifies a
    ensures Limbs(a[..])
    ensures Val(a[..]) == if a == b then 0 else (old(Val(a[..])) * old(Val(b[..]))) % P(WIDTH)
  {
    hide Val, P;
    ghost var x := a[..];
    var c := new nat[WIDTH];
    forall i | 0 <= i < WIDTH { c[i] := a[i]; }
    forall i | 0 <= i < WIDTH { a[i] := 0; }
    assert c[..] == x;
    PowerFacts();
    Zeros(a[..]);
    ValWhole(x);
    ghost var y := b[..];
    assert a != b ==> y == old(b[..]);
    for j := 0 to WIDTH
      invariant Limbs(a[..]) && c[..] == x && b[..] == y
      invariant Val(a[..]) == (Val(x[..j]) * Val(y)) % P(WIDTH)
      invariant a == b ==> Val(y) == 0
    {
      AddProduct(a, c[j], b[..], j);
      ValNext(x, j);
      PassSum(Val(x[..j]), x[j] * P(j), Val(y), P(WIDTH));
      if a == b { SameNumber(a[..], y); }
    }
    PassSum(Val(x), 0, Val(y), P(WIDTH));
  }

  lemma PassSum(p: nat, q: nat, y: nat, m: nat)
    requires m > 0
    ensures ((p * y) % m + q * y) % m == ((p + q) * y) % m
    ensures y == 0 ==> ((p + q) * y) % m == 0
  {
    MulDistrib(p, q, y);
    ModAdd(p * y, q * y, m);
  }

  /** Limbs are determined by the number they stand for. */
  lemma {:induction false} SameNumber(s: seq<nat>, t: seq<nat>)
    requires |s| == |t| && Limbs(s) && Limbs(t) && Val(s) == Val(t)
    ensures s == t
  {
    if s != [] {
      var n := |s| - 1;
      if s[n] < t[n] { CompareAt(s, t, n); }
      if t[n] < s[n] { CompareAt(t, s, n); }
      SameNumber(s[..n], t[..n]);
    }
  }

  lemma {:induction false} Zeros(s: seq<nat>)
    requires forall i | 0 <= i < |s| :: s[i] == 0
    ensures Val(s) == 0
  {
    if s != [] { Zeros(s[..|s| - 1]); }
  }

  // -------------------------------------------------------------------- shifts

  lemma {:induction false} PowerOfTwo(i: nat)
    ensures P(i) == Pow2(32 * i)
  {
    if i == 0 {
    } else {
      PowerOfTwo(i - 1);
      Pow2Add(32, 32 * (i - 1));
      TwoTo32();
    }
  }

  lemma Parts(x: nat, a: nat, c: nat)
    requires x < B && a >= 1 && c >= 1 && a * c == B
    ensures x * a == (x % c) * a + B * (x / c) && (x % c) * a < B && x / c < a
  {
    var q, r := x / c, x % c;
    assert x == c * q + r;
    MulDistrib(c * q, r, a);
    assert c * q * a == a * c * q;
    MulMono(a, r + 1, c);
    if q >= a { MulMono(c, a, q); }
  }

  /** The high and low parts of a limb shifted left by s bits. */
  lemma ShiftParts(x: nat, s: nat)
    requires x < B && s < 32
    ensures Pow2(s) * Pow2(32 - s) == B
    ensures x * Pow2(s) == (x * Pow2(s)) % B + B * (x / Pow2(32 - s))
    ensures x / Pow2(32 - s) < Pow2(s)
    ensures (x * Pow2(s)) % B == (x % Pow2(32 - s)) * Pow2(s) && ((x * Pow2(s)) % B) % Pow2(s) == 0
  {
    hide Pow2;
    TwoTo32();
    Pow2Add(s, 32 - s);
    var a, c := Pow2(s), Pow2(32 - s);
    Parts(x, a, c);
    DivModIs(x * a, B, x / c, (x % c) * a);
    DivModIs((x % c) * a, a, x % c, 0);
  }

  /** One iteration of operator<<=: limb x goes to positions q and q + 1. */
  method ShiftLimbLeft(p: array<nat>, x: nat, q: nat, s: nat)
    requires p.Length == WIDTH && Limbs(p[..]) && x < B && s < 32 && q < WIDTH && p[q] < Pow2(s)
    requires q + 1 < WIDTH ==> p[q + 1] == 0
    modifies p
    ensures Limbs(p[..])
    ensures p[q] == old(p[q]) + (x * Pow2(s)) % B && (q + 1 < WIDTH ==> p[q + 1] == x / Pow2(32 - s))
    ensures forall i | 0 <= i < WIDTH && i != q && i != q + 1 :: p[i] == old(p[i])
  {
    hide Pow2;
    ShiftParts(x, s);
    OrDisjoint((x * Pow2(s)) % B, p[q], s);
    SumFits(x, s, p[q]);
    ZeroShift(x, s);
    if q + 1 < WIDTH && s != 0 {
      p[q + 1] := BitOr(p[q + 1], x / Pow2(32 - s));
    }
    p[q] := BitOr(p[q], (x * Pow2(s)) % B);
  }

  lemma ZeroShift(x: nat, s: nat)
    requires x < B && s < 32
    ensures s == 0 ==> x / Pow2(32 - s) == 0
    ensures x / Pow2(32 - s) < B
  {
    TwoTo32();
    ShiftParts(x, s);
    Pow2Mono(s, 32);
  }

  lemma SumFits(x: nat, s: nat, h: nat)
    requires x < B && s < 32 && h < Pow2(s)
    ensures (x * Pow2(s)) % B + h < B
  {
    hide Pow2;
    ShiftParts(x, s);
    var a, c := Pow2(s), Pow2(32 - s);
    assert (x * a) % B == (x % c) * a;
    MulMono(a, x % c + 1, c);
    MulDistrib(x % c, 1, a);
  }

  /** The number in the limbs below m + k, with its pending carry, is the shifted prefix of x. */
  lemma ShiftLeftNext(before: seq<nat>, after: seq<nat>, x: seq<nat>, m: nat, k: nat, s: nat, h: nat)
    requires m < |x| && Limbs(x) && s < 32 && m + k < |before| == |after|
    requires forall i | 0 <= i < m + k :: before[i] == after[i]
    requires after[m + k] == h + (x[m] * Pow2(s)) % B
    requires Val(before[..m + k]) + h * P(m + k) == Val(x[..m]) * Pow2(s) * P(k)
    ensures Val(after[..m + k + 1]) + (x[m] / Pow2(32 - s)) * P(m + k + 1) == Val(x[..m + 1]) * Pow2(s) * P(k)
  {
    hide Val, P, Pow2;
    ValSame(before, after, m + k);
    ValNext(after, m + k);
    ValNext(x, m);
    ShiftParts(x[m], s);
    var S, lo, hi := Pow2(s), (x[m] * Pow2(s)) % B, x[m] / Pow2(32 - s);
    NextPower(m + k);
    MulDistrib(h, lo, P(m + k));
    assert hi * P(m + k + 1) == B * hi * P(m + k);
    MulDistrib(lo, B * hi, P(m + k));
    LimbTerm(Val(x[..m]), x[m], S, m, k);
  }

  lemma LimbTerm(v: nat, x: nat, S: nat, m: nat, k: nat)
    ensures (v + x * P(m)) * S * P(k) == v * S * P(k) + x * S * P(m + k)
  {
    PowAdd(B, m, k);
    var p, q := P(m), P(k);
    MulDistrib(v, x * p, S);
    MulDistrib(v * S, x * p * S, q);
    assert x * p * S * q == x * S * (p * q);
  }

  /** The first m limbs of x have been shifted into p, h being the part of the next limb that
      is already there. */
  ghost predicate LeftDone(p: seq<nat>, x: seq<nat>, m: nat, k: nat, s: nat, h: nat) {
    && |p| == |x| == WIDTH && m + k <= WIDTH && s < 32 && h < Pow2(s) && Limbs(p) && Limbs(x)
    && (m + k < WIDTH ==> p[m + k] == h && forall j | m + k < j < WIDTH :: p[j] == 0)
    && Val(p[..m + k]) + h * P(m + k) == Val(x[..m]) * Pow2(s) * P(k)
  }

  method ShiftLeftStep(p: array<nat>, x: seq<nat>, i: nat, k: nat, s: nat, ghost h: nat) returns (ghost h': nat)
    requires p.Length == WIDTH && LeftDone(p[..], x, i, k, s, h) && i + k < WIDTH
    modifies p
    ensures LeftDone(p[..], x, i + 1, k, s, h')
  {
    hide Val, P, Pow2;
    ghost var before := p[..];
    ShiftLimbLeft(p, x[i], i + k, s);
    ShiftLeftNext(before, p[..], x, i, k, s, h);
    ShiftParts(x[i], s);
    h' := x[i] / Pow2(32 - s);
  }

  lemma LeftStart(p: seq<nat>, x: seq<nat>, k: nat, s: nat)
    requires |p| == |x| == WIDTH && Limbs(x) && s < 32 && forall i | 0 <= i < WIDTH :: p[i] == 0
    ensures Limbs(p) && Val(p) == 0
    ensures k <= WIDTH ==> LeftDone(p, x, 0, k, s, 0)
  {
    Zeros(p);
    if k <= WIDTH { Zeros(p[..k]); }
  }

  method ShiftLeft(p: array<nat>, shift: nat)
    requires p.Length == WIDTH && Limbs(p[..])
    modifies p
    ensures Limbs(p[..]) && Val(p[..]) == (old(Val(p[..])) * Pow2(shift)) % P(WIDTH)
  {
    hide Val, P, Pow2;
    var a := p[..];
    forall i | 0 <= i < WIDTH { p[i] := 0; }
    var k, s := shift / 32, shift % 32;
    LeftStart(p[..], a, k, s);
    hide LeftDone;
    ghost var h: nat := 0;
    for i := 0 to WIDTH
      invariant k > WIDTH ==> Limbs(p[..]) && Val(p[..]) == 0
      invariant k <= WIDTH ==> LeftDone(p[..], a, if i + k <= WIDTH then i else WIDTH - k, k, s, h)
    {
      if i + k < WIDTH { h := ShiftLeftStep(p, a, i, k, s, h); }
    }
    LeftEnd(p[..], a, k, s, h);
    assert shift == 32 * k + s;
  }

  lemma LeftEnd(p: seq<nat>, x: seq<nat>, k: nat, s: nat, h: nat)
    requires |p| == |x| == WIDTH
    requires k > WIDTH ==> Limbs(p) && Val(p) == 0
    requires k <= WIDTH ==> LeftDone(p, x, WIDTH - k, k, s, h)
    ensures Limbs(p) && Val(p) == (Val(x) * Pow2(32 * k + s)) % P(WIDTH)
  {
    hide Val, P, Pow2;
    ValBound(p);
    ValWhole(p);
    ShiftedOut(Val(p), x, k, s, h);
  }

  /** The shift by whole limbs and bits is a multiplication, and what falls off the top is a
      multiple of the register size. */
  lemma ShiftedOut(v: nat, x: seq<nat>, k: nat, s: nat, h: nat)
    requires |x| == WIDTH && v < P(WIDTH)
    requires k > WIDTH ==> v == 0
    requires k <= WIDTH ==> v + h * P(WIDTH) == Val(x[..WIDTH - k]) * Pow2(s) * P(k)
    ensures v == (Val(x) * Pow2(32 * k + s)) % P(WIDTH)
  {
    hide Val, P, Pow2;
    PowerFacts();
    PowerOfTwo(k);
    Pow2Add(s, 32 * k);
    var S := Pow2(s);
    assert Val(x) * Pow2(32 * k + s) == Val(x) * S * P(k);
    if k <= WIDTH {
      var low, high, m := Val(x[..WIDTH - k]), Val(x[WIDTH - k..]), WIDTH - k;
      ValSplit(x, m);
      Split(m);
      assert (low + high * P(m)) * S * P(k) == low * S * P(k) + P(WIDTH) * (high * S) by { LimbSplit(low, high, S, P(m), P(k)); }
      ModShift(low * S * P(k), P(WIDTH), high * S);
      Wraps(v, low * S * P(k), h, P(WIDTH));
    } else {
      Beyond(k);
      ModShift(0, P(WIDTH), Val(x) * S * P(k - WIDTH));
      assert Val(x) * S * (P(WIDTH) * P(k - WIDTH)) == P(WIDTH) * (Val(x) * S * P(k - WIDTH));
    }
  }

  lemma LimbSplit(low: nat, high: nat, S: nat, p: nat, q: nat)
    ensures (low + high * p) * S * q == low * S * q + p * q * (high * S)
  {
    MulDistrib(low, high * p, S);
    MulDistrib(low * S, high * p * S, q);
    assert high * p * S * q == p * q * (high * S);
  }

  lemma Beyond(k: nat)
    requires k > WIDTH
    ensures P(k) == P(WIDTH) * P(k - WIDTH)
  {
    PowAdd(B, WIDTH, k - WIDTH);
  }

  /** The quotient and the remainder of a limb shifted right by s bits. */
  lemma RightParts(x: nat, s: nat)
    requires x < B && s < 32
    ensures Pow2(32 - s) * Pow2(s) == B && x / Pow2(s) < Pow2(32 - s) && x == x / Pow2(s) * Pow2(s) + x % Pow2(s)
    ensures s == 0 ==> x % Pow2(s) == 0
    ensures s != 0 ==> (x * Pow2(32 - s)) % B == (x % Pow2(s)) * Pow2(32 - s) && ((x * Pow2(32 - s)) % B) % Pow2(32 - s) == 0
  {
    if s == 0 { TwoTo32(); } else { hide Pow2; ShiftParts(x, 32 - s); }
  }

  /** One iteration of operator>>=: limb x goes to positions m - 1 and m. */
  method ShiftLimbRight(p: array<nat>, x: nat, m: nat, s: nat)
    requires p.Length == WIDTH && Limbs(p[..]) && x < B && s < 32 && m < WIDTH && p[m] == 0
    requires m > 0 ==> p[m - 1] < Pow2(32 - s)
    modifies p
    ensures Limbs(p[..])
    ensures p[m] == x / Pow2(s) && (m > 0 ==> p[m - 1] == old(p[m - 1]) + (x % Pow2(s)) * Pow2(32 - s))
    ensures forall i | 0 <= i < WIDTH && i != m && i != m - 1 :: p[i] == old(p[i])
  {
    hide Pow2, BitOr;
    if m > 0 && s != 0 {
      LowPart(x, s, p[m - 1]);
      p[m - 1] := BitOr(p[m - 1], (x * Pow2(32 - s)) % B);
    }
    ghost var q := HighPart(x, s);
    p[m] := BitOr(p[m], x / Pow2(s));
  }

  lemma LowPart(x: nat, s: nat, y: nat)
    requires x < B && 0 < s < 32 && y < Pow2(32 - s)
    ensures BitOr(y, (x * Pow2(32 - s)) % B) == y + (x % Pow2(s)) * Pow2(32 - s) < B
  {
    hide Pow2, BitOr;
    RightParts(x, s);
    OrDisjoint((x * Pow2(32 - s)) % B, y, 32 - s);
    SumFits(x, 32 - s, y);
  }

  lemma HighPart(x: nat, s: nat) returns (q: nat)
    requires x < B && s < 32
    ensures q == x / Pow2(s) && BitOr(0, q) == q < B && (s == 0 ==> x % Pow2(s) == 0)
  {
    hide Pow2, BitOr;
    QuotientAtMost(x, Pow2(s));
    q := x / Pow2(s);
    RightParts(x, s);
    ZeroOr(q);
  }

  lemma ZeroOr(x: nat)
    ensures BitOr(0, x) == x
  {
  }

  /** Limbs k to i of x have been shifted into p; the bits that fell off are the low ones of limb k. */
  ghost predicate RightDone(p: seq<nat>, x: seq<nat>, i: nat, k: nat, s: nat) {
    && |p| == |x| == WIDTH && k <= i <= WIDTH && s < 32 && Limbs(p) && Limbs(x)
    && (forall j | i - k <= j < WIDTH :: p[j] == 0)
    && (k < i ==> p[i - k - 1] == x[i - 1] / Pow2(s))
    && Val(p[..i - k]) * Pow2(s) + (if k < i then x[k] % Pow2(s) else 0) == Val(x[k..i])
  }

  method ShiftRightStep(p: array<nat>, x: seq<nat>, i: nat, k: nat, s: nat)
    requires p.Length == WIDTH && RightDone(p[..], x, i, k, s) && i < WIDTH
    modifies p
    ensures RightDone(p[..], x, i + 1, k, s)
  {
    hide Val, P, Pow2;
    ghost var before := p[..];
    if k < i { RightParts(x[i - 1], s); }
    ShiftLimbRight(p, x[i], i - k, s);
    ShiftRightNext(before, p[..], x, i, k, s);
  }

  lemma ShiftRightNext(before: seq<nat>, after: seq<nat>, x: seq<nat>, i: nat, k: nat, s: nat)
    requires |before| == |after| == |x| == WIDTH && k <= i < WIDTH && s < 32 && Limbs(x)
    requires forall j | 0 <= j < i - k - 1 :: before[j] == after[j]
    requires k < i ==> after[i - k - 1] == before[i - k - 1] + (x[i] % Pow2(s)) * Pow2(32 - s)
    requires after[i - k] == x[i] / Pow2(s)
    requires Val(before[..i - k]) * Pow2(s) + (if k < i then x[k] % Pow2(s) else 0) == Val(x[k..i])
    ensures Val(after[..i + 1 - k]) * Pow2(s) + x[k] % Pow2(s) == Val(x[k..i + 1])
  {
    hide Val, P, Pow2;
    RightParts(x[i], s);
    ValNext(after, i - k);
    NextOf(x, k, i);
    if k < i {
      RightValue(before, after, x[i], i - k, s, Val(x[k..i]), Val(x[k..i + 1]), x[k] % Pow2(s));
    } else {
      Nothing(before[..0], after[..0], x[k..i]);
    }
  }

  lemma NextOf(x: seq<nat>, k: nat, i: nat)
    requires k <= i < |x|
    ensures Val(x[k..i + 1]) == Val(x[k..i]) + x[i] * P(i - k)
  {
    hide Val, P;
    assert x[k..][..i - k] == x[k..i] && x[k..][..i - k + 1] == x[k..i + 1];
    ValNext(x[k..], i - k);
  }

  lemma RightValue(before: seq<nat>, after: seq<nat>, xi: nat, m: nat, s: nat, w: nat, w': nat, low: nat)
    requires |before| == |after| && 0 < m < |before| && s < 32 && Pow2(32 - s) * Pow2(s) == B
    requires xi == xi / Pow2(s) * Pow2(s) + xi % Pow2(s)
    requires forall j | 0 <= j < m - 1 :: before[j] == after[j]
    requires after[m - 1] == before[m - 1] + (xi % Pow2(s)) * Pow2(32 - s) && after[m] == xi / Pow2(s)
    requires Val(before[..m]) * Pow2(s) + low == w && w' == w + xi * P(m)
    ensures Val(after[..m + 1]) * Pow2(s) + low == w'
  {
    hide Val, P, Pow2;
    ValNext(after, m);
    ValSame(before, after, m - 1);
    ValNext(before, m - 1);
    ValNext(after, m - 1);
    NextPower(m - 1);
    RightSum(Val(after[..m + 1]), Val(before[..m]), Val(before[..m - 1]), before[m - 1], xi % Pow2(s), Pow2(32 - s), Pow2(s), P(m - 1),
             xi / Pow2(s), xi, w, w', low);
  }

  lemma Nothing(a: seq<nat>, b: seq<nat>, c: seq<nat>)
    requires a == b == c == []
    ensures Val(a) == Val(b) == Val(c) == 0 && P(0) == 1
  {
  }

  lemma RightSum(va: nat, vb: nat, v: nat, b: nat, r: nat, T: nat, S: nat, p: nat, q: nat, xi: nat, w: nat, w': nat, low: nat)
    requires T * S == B && va == v + (b + r * T) * p + q * (B * p) && vb == v + b * p && xi == q * S + r
    requires vb * S + low == w && w' == w + xi * (B * p)
    ensures va * S + low == w'
  {
    RightTerm(v, b, r, T, S, p, q);
  }

  lemma RightTerm(v: nat, b: nat, r: nat, T: nat, S: nat, p: nat, q: nat)
    requires T * S == B
    ensures (v + (b + r * T) * p + q * (B * p)) * S == (v + b * p) * S + (q * S + r) * (B * p)
  {
    MulDistrib(b, r * T, p);
    MulDistrib(v + b * p, r * T * p, S);
    assert r * T * p * S == r * (T * S * p);
    MulDistrib(v + b * p + r * T * p, q * (B * p), S);
    assert q * (B * p) * S == q * S * (B * p);
    MulDistrib(q * S, r, B * p);
  }

  method ShiftRight(p: array<nat>, shift: nat)
    requires p.Length == WIDTH && Limbs(p[..])
    modifies p
    ensures Limbs(p[..]) && Val(p[..]) == old(Val(p[..])) / Pow2(shift)
  {
    hide Val, P, Pow2;
    var a := p[..];
    forall i | 0 <= i < WIDTH { p[i] := 0; }
    var k, s := shift / 32, shift % 32;
    RightStart(p[..], a, k, s);
    hide RightDone;
    for i := 0 to WIDTH
      invariant i <= k ==> p[..] == Zero()
      invariant k <= i ==> RightDone(p[..], a, i, k, s)
    {
      if k <= i { ShiftRightStep(p, a, i, k, s); }
    }
    RightEnd(p[..], a, k, s);
    assert shift == 32 * k + s;
  }

  function Zero(): seq<nat> { seq(WIDTH, i => 0) }

  lemma RightStart(p: seq<nat>, x: seq<nat>, k: nat, s: nat)
    requires |p| == |x| == WIDTH && Limbs(x) && s < 32 && forall i | 0 <= i < WIDTH :: p[i] == 0
    ensures p == Zero()
    ensures k <= WIDTH ==> RightDone(p, x, k, k, s)
  {
  }

  /** The bits shifted out are a remainder of the division. */
  lemma RightEnd(p: seq<nat>, x: seq<nat>, k: nat, s: nat)
    requires |x| == WIDTH && s < 32 && Limbs(x)
    requires WIDTH <= k ==> p == Zero()
    requires k < WIDTH ==> RightDone(p, x, WIDTH, k, s)
    ensures Limbs(p) && Val(p) == Val(x) / Pow2(32 * k + s)
  {
    hide Val, P, Pow2;
    PowerOfTwo(k);
    Pow2Add(32 * k, s);
    var S, p' := Pow2(s), P(k);
    ValBound(x);
    if k < WIDTH {
      var m := WIDTH - k;
      ValSplit(p, m);
      Zeros(p[m..]);
      assert x[k..WIDTH] == x[k..];
      Tail(Val(p), x, k, s);
    } else {
      Zeros(p);
      PowerAtMost(WIDTH, k);
      MulMono(p', 1, S);
      DivModIs(Val(x), p' * S, 0, Val(x));
    }
  }

  lemma Tail(v: nat, x: seq<nat>, k: nat, s: nat)
    requires |x| == WIDTH && k < WIDTH && Limbs(x)
    requires v * Pow2(s) + x[k] % Pow2(s) == Val(x[k..])
    ensures P(k) * Pow2(s) > 0 && v == Val(x) / (P(k) * Pow2(s))
  {
    hide Val, P, Pow2;
    var S, p', r, low := Pow2(s), P(k), x[k] % Pow2(s), Val(x[..k]);
    assert p' * S > 0 by { PowerOfTwo(k); }
    ValSplit(x, k);
    ValBound(x[..k]);
    MulDistrib(v * S, r, p');
    assert v * S * p' == v * (p' * S);
    MulMono(p', r + 1, S);
    MulDistrib(r, 1, p');
    DivModIs(Val(x), p' * S, v, r * p' + low);
  }

  lemma PowerAtMost(i: nat, k: nat)
    requires i <= k
    ensures P(i) <= P(k)
  {
    PowerOfTwo(i);
    PowerOfTwo(k);
    Pow2Mono(32 * i, 32 * k);
  }
}
