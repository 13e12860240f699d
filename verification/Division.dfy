/** operator/= and bits() of base_uint<256> (src/arith_uint256.cpp): shift-and-subtract division
    is the floor of the quotient. */
module Division {
  import opened Powers
  import opened Arith256

  // ---------------------------------------------------------------- bit length

  /** A number that takes r bits. */
  ghost predicate Takes(v: nat, r: nat) {
    if r == 0 then v == 0 else Pow2(r - 1) <= v < Pow2(r)
  }

  /** Testing the top bit of a number is a comparison. */
  lemma {:induction false} TopBitSet(x: nat, k: nat)
    requires x < Pow2(k + 1)
    ensures BitAnd(x, Pow2(k)) != 0 <==> x >= Pow2(k)
  {
    if k > 0 { TopBitSet(x / 2, k - 1); }
  }

  method TopBit(x: nat) returns (r: nat)
    requires 0 < x < B
    ensures 1 <= r <= 32 && Takes(x, r)
  {
    hide Pow2, BitAnd;
    TwoTo32();
    for bits := 32 downto 1
      invariant x < Pow2(bits)
    {
      TopBitSet(x, bits);
      if BitAnd(x, Pow2(bits)) != 0 { return bits + 1; }
    }
    One();
    return 1;
  }

  lemma One()
    ensures Pow2(0) == 1 && Pow2(1) == 2
  {
  }

  method Bits(p: array<nat>) returns (r: nat)
    requires p.Length == WIDTH && Limbs(p[..])
    ensures r <= 256 && Takes(Val(p[..]), r)
  {
    hide Pow2, Val, P;
    for pos := WIDTH downto 0
      invariant forall i | pos <= i < WIDTH :: p[i] == 0
    {
      if p[pos] != 0 {
        var bits := TopBit(p[pos]);
        LimbBits(p[..], pos, bits);
        return 32 * pos + bits;
      }
    }
    Zeros(p[..]);
    return 0;
  }

  lemma LimbBits(s: seq<nat>, pos: nat, bits: nat)
    requires |s| == WIDTH && Limbs(s) && pos < WIDTH && 1 <= bits && Takes(s[pos], bits)
    requires forall i | pos < i < WIDTH :: s[i] == 0
    ensures Takes(Val(s), 32 * pos + bits)
  {
    hide Pow2, Val, P;
    var x, p := s[pos], P(pos);
    ValSplit(s, pos + 1);
    Zeros(s[pos + 1..]);
    ValNext(s, pos);
    ValBound(s[..pos]);
    PowerOfTwo(pos);
    Pow2Add(32 * pos, bits);
    Pow2Add(32 * pos, bits - 1);
    MulMono(p, Pow2(bits - 1), x);
    MulMono(p, x + 1, Pow2(bits));
    MulDistrib(x, 1, p);
  }

  // ------------------------------------------------------------------ division

  /** The quotient bits from shift on have been set, and no others. */
  ghost predicate Clear(q: seq<nat>, shift: nat) {
    && |q| == WIDTH && Limbs(q) && shift < 32 * WIDTH
    && (forall j | 0 <= j < shift / 32 :: q[j] == 0)
    && q[shift / 32] % Pow2(shift % 32 + 1) == 0
  }

  lemma ClearDown(q: seq<nat>, shift: nat)
    requires Clear(q, shift)
    ensures shift > 0 ==> Clear(q, shift - 1)
  {
    hide Pow2;
    if shift > 0 && shift % 32 != 0 { HalfMultiple(q[shift / 32], shift % 32); }
  }

  lemma HalfMultiple(x: nat, s: nat)
    requires x % Pow2(s + 1) == 0
    ensures x % Pow2(s) == 0
  {
    var p, q := Pow2(s), x / Pow2(s + 1);
    assert x == 2 * p * q;
    assert 2 * p * q == (2 * q) * p;
    DivModIs(x, p, 2 * q, 0);
  }

  lemma {:induction false} ValUpdate(s: seq<nat>, k: nat, x: nat)
    requires k < |s|
    ensures Val(s[k := x]) == Val(s) + (x - s[k]) * P(k)
  {
    hide Val, P;
    var t := s[k := x];
    SameAbove(t, s, k + 1);
    ValNext(s, k);
    ValNext(t, k);
    ValSame(s, t, k);
    MulDistrib(x - s[k], s[k], P(k));
  }

  /** A bit that is not set yet is set by adding it. */
  method SetBit(q: array<nat>, shift: nat)
    requires q.Length == WIDTH && Clear(q[..], shift)
    modifies q
    ensures Val(q[..]) == old(Val(q[..])) + Pow2(shift)
    ensures Limbs(q[..]) && (shift > 0 ==> Clear(q[..], shift - 1))
  {
    hide Pow2, Val, P, BitOr;
    var k, s := shift / 32, shift % 32;
    BitFits(q[k], s);
    BitAdded(q[..], k, s, BitOr(q[k], Pow2(s)));
    q[k] := BitOr(q[k], Pow2(s));
    assert q[..] == old(q[..])[k := q[k]];
  }

  lemma BitAdded(q: seq<nat>, k: nat, s: nat, x: nat)
    requires |q| == WIDTH && Clear(q, 32 * k + s) && s < 32
    requires x == q[k] + Pow2(s) < B && x % Pow2(s) == 0
    ensures Val(q[k := x]) == Val(q) + Pow2(32 * k + s)
    ensures Limbs(q[k := x]) && (32 * k + s > 0 ==> Clear(q[k := x], 32 * k + s - 1))
  {
    hide Pow2, Val, P;
    ValUpdate(q, k, x);
    PowerOfTwo(k);
    Pow2Add(s, 32 * k);
    assert (32 * k + s) / 32 == k;
    if s == 0 && k > 0 {
      assert (32 * k - 1) / 32 == k - 1 && (32 * k - 1) % 32 == 31;
      DivModIs(0, Pow2(32), 0, 0);
    }
  }

  lemma BitFits(x: nat, s: nat)
    requires x < B && s < 32 && x % Pow2(s + 1) == 0
    ensures BitOr(x, Pow2(s)) == x + Pow2(s) < B
    ensures (x + Pow2(s)) % Pow2(s) == 0
  {
    OrDisjoint(x, Pow2(s), s + 1);
    assert Pow2(s + 1) == 2 * Pow2(s);
    hide Pow2, BitOr;
    TwoTo32();
    Pow2Add(s + 1, 31 - s);
    NextMultiple(x, Pow2(s), Pow2(31 - s));
  }

  lemma NextMultiple(x: nat, p: nat, c: nat)
    requires p > 0 && 2 * p * c == B && x < B && x % (2 * p) == 0
    ensures x + p < B && (x + p) % p == 0
  {
    var q := x / (2 * p);
    assert x == q * (2 * p);
    if q + 1 > c { MulMono(2 * p, c, q); }
    MulMono(2 * p, q + 1, c);
    MulDistrib(q, 1, 2 * p);
    DivModIs(x + p, p, 2 * q + 1, 0);
  }

  /** What the loop of operator/= keeps: n is the divisor times the quotient so far, plus
      what is left, which is less than the divisor shifted once more. */
  ghost predicate Dividing(n: nat, d: nat, q: nat, rest: nat, shift: nat) {
    n == q * d + rest && rest < d * Pow2(shift)
  }

  lemma Subtract(n: nat, d: nat, q: nat, rest: nat, shift: nat)
    requires Dividing(n, d, q, rest, shift + 1)
    ensures rest >= d * Pow2(shift) ==> Dividing(n, d, q + Pow2(shift), rest - d * Pow2(shift), shift)
    ensures rest < d * Pow2(shift) ==> Dividing(n, d, q, rest, shift)
  {
    MulDistrib(q, Pow2(shift), d);
  }

  /** One round: compare, subtract, set a bit. */
  method Round(quot: array<nat>, num: array<nat>, div: array<nat>, ghost n: nat, ghost d: nat, shift: nat)
    requires quot.Length == WIDTH && num.Length == WIDTH && div.Length == WIDTH && quot != num && quot != div && num != div
    requires Clear(quot[..], shift) && Limbs(num[..]) && Limbs(div[..]) && Val(div[..]) == d * Pow2(shift)
    requires Dividing(n, d, Val(quot[..]), Val(num[..]), shift + 1)
    modifies quot, num, div
    ensures Limbs(quot[..]) && Limbs(num[..]) && Limbs(div[..])
    ensures shift > 0 ==> Clear(quot[..], shift - 1) && Val(div[..]) == d * Pow2(shift - 1)
    ensures Dividing(n, d, Val(quot[..]), Val(num[..]), shift)
  {
    hide Pow2, Val, P, Clear, Dividing;
    Subtract(n, d, Val(quot[..]), Val(num[..]), shift);
    ClearDown(quot[..], shift);
    ClearLimbs(quot[..], shift);
    var c := CompareTo(num, div);
    if c >= 0 {
      Difference(num[..], div[..]);
      Sub(num, div);
      SetBit(quot, shift);
    }
    if shift > 0 { HalfShift(d, shift); }
    ShiftRight(div, 1);
  }

  lemma ClearLimbs(q: seq<nat>, shift: nat)
    requires Clear(q, shift)
    ensures Limbs(q)
  {
  }

  lemma Difference(x: seq<nat>, y: seq<nat>)
    requires |x| == WIDTH && Limbs(x) && Val(x) >= Val(y)
    ensures P(WIDTH) > 0 && (Val(x) - Val(y)) % P(WIDTH) == Val(x) - Val(y)
  {
    hide Val, P;
    PowerFacts();
    ValBound(x);
    DivModIs(Val(x) - Val(y), P(WIDTH), 0, Val(x) - Val(y));
  }

  lemma HalfShift(d: nat, shift: nat)
    requires shift > 0
    ensures d * Pow2(shift) / Pow2(1) == d * Pow2(shift - 1)
  {
    One();
    assert d * Pow2(shift) == 2 * (d * Pow2(shift - 1));
  }

  /** operator/=.  Clears the register before the divisor is examined, so that a division by
      zero leaves zero behind when it throws. */
  method Div(a: array<nat>, b: array<nat>) returns (thrown: bool)
    requires a.Length == WIDTH && b.Length == WIDTH && Limbs(a[..]) && Limbs(b[..])
    modifies a
    ensures Limbs(a[..]) && (thrown <==> old(Val(b[..])) == 0)
    ensures Val(a[..]) == if thrown then 0 else old(Val(a[..])) / old(Val(b[..]))
  {
    hide Pow2, Val, P, Clear, Dividing, Takes;
    ghost var x, y := a[..], b[..];
    ghost var n, d := Val(x), Val(y);
    var div := Copy(b);
    var num := Copy(a);
    forall i | 0 <= i < WIDTH { a[i] := 0; }
    Zeros(a[..]);
    assert num[..] == x && div[..] == y;
    var numBits := Bits(num);
    var divBits := Bits(div);
    Compared(n, d, numBits, divBits);
    if divBits == 0 { return true; }
    if divBits > numBits {
      DivModIs(n, d, 0, n);
      return false;
    }
    var shift: int := numBits - divBits;
    Aligned(a[..], n, d, numBits, divBits);
    ShiftLeft(div, shift);
    while shift >= 0
      invariant -1 <= shift
      invariant Limbs(a[..]) && Limbs(num[..]) && Limbs(div[..])
      invariant shift >= 0 ==> Clear(a[..], shift) && Val(div[..]) == d * Pow2(shift)
      invariant Dividing(n, d, Val(a[..]), Val(num[..]), shift + 1)
    {
      Round(a, num, div, n, d, shift);
      shift := shift - 1;
    }
    Divided(n, d, Val(a[..]), Val(num[..]));
    return false;
  }

  method Copy(a: array<nat>) returns (c: array<nat>)
    requires a.Length == WIDTH
    ensures c.Length == WIDTH && fresh(c) && c[..] == a[..]
  {
    c := new nat[WIDTH](i requires 0 <= i < WIDTH reads a => a[i]);
  }

  /** Bit lengths decide most comparisons. */
  lemma Compared(n: nat, d: nat, nb: nat, db: nat)
    requires Takes(n, nb) && Takes(d, db)
    ensures db == 0 <==> d == 0
    ensures db > nb ==> n < d
    ensures 0 < db <= nb ==> d * Pow2(nb - db) < Pow2(nb) && n < d * Pow2(nb - db + 1)
  {
    if db > nb { Pow2Mono(nb, db - 1); }
    if 0 < db <= nb {
      var k := nb - db;
      Pow2Add(db, k);
      Pow2Add(db - 1, k + 1);
      MulMono(Pow2(k), d + 1, Pow2(db));
      MulDistrib(d, 1, Pow2(k));
      MulMono(Pow2(k + 1), Pow2(db - 1), d);
    }
  }

  lemma Aligned(q: seq<nat>, n: nat, d: nat, nb: nat, db: nat)
    requires |q| == WIDTH && nb <= 256 && 0 < db <= nb && (forall i | 0 <= i < WIDTH :: q[i] == 0)
    requires d * Pow2(nb - db) < Pow2(nb) && n < d * Pow2(nb - db + 1)
    ensures Clear(q, nb - db) && Dividing(n, d, Val(q), n, nb - db + 1)
    ensures P(WIDTH) > 0 && (d * Pow2(nb - db)) % P(WIDTH) == d * Pow2(nb - db)
  {
    hide Pow2, P, Val;
    Zeros(q);
    PowerOfTwo(WIDTH);
    Pow2Mono(nb, 256);
    DivModIs(0, Pow2((nb - db) % 32 + 1), 0, 0);
    DivModIs(d * Pow2(nb - db), P(WIDTH), 0, d * Pow2(nb - db));
  }

  lemma Divided(n: nat, d: nat, q: nat, rest: nat)
    requires d > 0 && Dividing(n, d, q, rest, 0)
    ensures n / d == q
  {
    One();
    DivModIs(n, d, q, rest);
  }
}
