/** The compact form of a 256-bit target (SetCompact and GetCompact, src/arith_uint256.cpp): a
    sign bit, a 23-bit mantissa and a base-256 exponent in 32 bits. */
module Compact {
  import opened Powers
  import opened Arith256
  import opened Division

  // -------------------------------------------------------------- what is meant

  /** A number moved up or down by k bytes. */
  function Up(w: nat, k: nat): nat { w * Pow2(8 * k) }

  function Down(w: nat, k: nat): nat { Quotient(w, Pow2(8 * k)) }

  function Quotient(w: nat, d: nat): nat
    requires d > 0
  {
    w / d
  }

  function Scaled(word: nat, size: nat): nat {
    if size <= 3 then Down(word, 3 - size) else Up(word, size - 3)
  }

  /** The number a compact word stands for, before it is put in a register. */
  function Meant(c: nat): nat { Scaled(c % 0x80_0000, c / 0x100_0000) }

  predicate SignBit(c: nat) { c / 0x80_0000 % 2 == 1 }

  /** The number of bytes that a number takes. */
  function Size(v: nat): nat { if v == 0 then 0 else 1 + Size(v / 256) }

  function Leading(v: nat): nat {
    if Size(v) <= 3 then Up(v, 3 - Size(v)) else Down(v, Size(v) - 3)
  }

  function Exponent(v: nat): nat { if Leading(v) >= 0x80_0000 then Size(v) + 1 else Size(v) }

  function Mantissa(v: nat): nat { if Leading(v) >= 0x80_0000 then Leading(v) / 256 else Leading(v) }

  /** The compact word of a number. */
  function Code(v: nat, negative: bool): nat {
    Mantissa(v) + 0x100_0000 * Exponent(v) + if negative && Mantissa(v) != 0 then 0x80_0000 else 0
  }

  // --------------------------------------------------------------------- powers

  lemma Byte()
    ensures Pow2(8) == 256 && Pow2(16) == 0x1_0000 && Pow2(23) == 0x80_0000 && Pow2(24) == 0x100_0000
  {
    assert Pow2(7) == 128;
    Pow2Add(8, 8);
    Pow2Add(16, 7);
  }

  lemma NextByte(n: nat)
    ensures Pow2(8 * (n + 1)) == 256 * Pow2(8 * n)
  {
    Byte();
    Pow2Add(8, 8 * n);
  }

  lemma DivAtLeast(v: nat, d: nat, q: nat)
    requires d > 0
    ensures q * d <= v ==> q <= v / d
    ensures v < q * d ==> v / d < q
    ensures v / d * d <= v < v / d * d + d
  {
    var r := v / d;
    assert v == d * r + v % d;
    if r < q { MulMono(d, r + 1, q); } else { MulMono(d, q, r); }
  }

  lemma DivDiv(v: nat, d: nat, e: nat)
    requires d > 0 && e > 0
    ensures d * e > 0 && v / d / e == v / (d * e)
  {
    var q, s := v / d, v / d / e;
    DivAtLeast(v, d, 0);
    DivAtLeast(q, e, 0);
    assert s * e * d == s * (d * e);
    MulMono(d, s * e, q);
    MulMono(d, q + 1, s * e + e);
    MulDistrib(q, 1, d);
    MulDistrib(s * e, e, d);
    DivModIs(v, d * e, s, v - s * (d * e));
  }

  lemma DivExact(q: nat, d: nat)
    requires d > 0
    ensures q * d / d == q
  {
    DivModIs(q * d, d, q, 0);
  }

  lemma {:induction false} SizeBound(v: nat)
    ensures v < Pow2(8 * Size(v)) && (v > 0 ==> Size(v) > 0 && Pow2(8 * (Size(v) - 1)) <= v)
  {
    if v > 0 {
      var n := Size(v / 256);
      SizeBound(v / 256);
      NextByte(n);
      if n > 0 { NextByte(n - 1); }
    }
  }

  lemma SizeIs(v: nat, n: nat)
    requires n > 0 && Pow2(8 * (n - 1)) <= v < Pow2(8 * n)
    ensures Size(v) == n
  {
    hide Pow2, Size;
    var k := Size(v);
    SizeBound(v);
    if k < n { Pow2Mono(8 * k, 8 * (n - 1)); }
    if n < k { Pow2Mono(8 * n, 8 * (k - 1)); }
  }

  /** The bit length determines the byte length. */
  lemma SizeBits(v: nat, r: nat)
    requires Takes(v, r)
    ensures Size(v) == (r + 7) / 8
  {
    if r > 0 {
      var n := (r + 7) / 8;
      Pow2Mono(8 * (n - 1), r - 1);
      Pow2Mono(r, 8 * n);
      SizeIs(v, n);
    }
  }

  // ----------------------------------------------------- mantissa and exponent

  /** The three leading bytes. */
  lemma LeadingBound(v: nat)
    ensures Leading(v) < 0x100_0000 && (Size(v) > 3 ==> Leading(v) >= 0x1_0000)
  {
    hide Pow2, Size;
    var n := Size(v);
    SizeBound(v);
    Byte();
    if n <= 3 {
      Pow2Add(8 * n, 8 * (3 - n));
      MulMono(Pow2(8 * (3 - n)), v + 1, Pow2(8 * n));
      MulDistrib(v, 1, Pow2(8 * (3 - n)));
    } else {
      assert v > 0 by { Empty(v); }
      Pow2Add(24, 8 * (n - 3));
      Pow2Add(16, 8 * (n - 3));
      DivAtLeast(v, Pow2(8 * (n - 3)), 0x100_0000);
      DivAtLeast(v, Pow2(8 * (n - 3)), 0x1_0000);
    }
  }

  lemma Empty(v: nat)
    requires Size(v) > 0
    ensures v > 0
  {
  }

  /** The mantissa stays clear of the sign bit and holds at least 16 significant bits once the
      number is longer. */
  lemma Normal(v: nat)
    ensures Mantissa(v) < 0x80_0000
    ensures Exponent(v) <= 3 ==> Mantissa(v) == Up(v, 3 - Exponent(v))
    ensures Exponent(v) > 3 ==> Mantissa(v) == Down(v, Exponent(v) - 3) && Mantissa(v) >= 0x8000
  {
    hide Pow2, Size, Up, Down;
    LeadingBound(v);
    var n := Size(v);
    if Leading(v) >= 0x80_0000 {
      if n <= 2 { UpLess(v, 2 - n); } else if n == 3 { UpNone(v); DownOne(v, 0); } else { DownOne(v, n - 3); }
    }
  }

  lemma UpNone(v: nat)
    ensures Up(v, 0) == v == Down(v, 0)
  {
    One();
  }

  lemma UpLess(v: nat, k: nat)
    ensures Up(v, k + 1) / 256 == Up(v, k)
  {
    NextByte(k);
    assert v * (256 * Pow2(8 * k)) == v * Pow2(8 * k) * 256;
    DivExact(v * Pow2(8 * k), 256);
  }

  lemma DownOne(v: nat, k: nat)
    ensures Down(v, k) / 256 == Down(v, k + 1)
  {
    NextByte(k);
    DivDiv(v, Pow2(8 * k), 256);
  }

  lemma CodeParts(v: nat, negative: bool)
    ensures Code(v, negative) / 0x100_0000 == Exponent(v)
    ensures Code(v, negative) % 0x80_0000 == Mantissa(v)
    ensures SignBit(Code(v, negative)) <==> negative && Mantissa(v) != 0
  {
    hide Size, Leading, Mantissa, Exponent, Up, Down;
    Normal(v);
    Fields(Mantissa(v), Exponent(v), if negative && Mantissa(v) != 0 then 1 else 0);
  }

  lemma Fields(m: nat, e: nat, b: nat)
    requires m < 0x80_0000 && b <= 1
    ensures var c := m + 0x100_0000 * e + 0x80_0000 * b;
            c / 0x100_0000 == e && c % 0x80_0000 == m && c / 0x80_0000 % 2 == b
  {
  }

  // ------------------------------------------------------------------- rounding

  /** The encoding drops what lies below the mantissa. */
  lemma Decodes(v: nat, negative: bool)
    ensures Meant(Code(v, negative)) ==
            if Exponent(v) <= 3 then v else Up(Down(v, Exponent(v) - 3), Exponent(v) - 3)
  {
    hide Pow2, Mantissa, Exponent, Code, Leading, Size, SignBit;
    CodeParts(v, negative);
    Normal(v);
    if Exponent(v) <= 3 { DivExact(v, Pow2(8 * (3 - Exponent(v)))); }
  }

  /** GetCompact yields the largest number not above v that a compact word can stand for. */
  lemma Nearest(v: nat, c: nat)
    ensures Meant(Code(v, false)) <= v
    ensures Meant(c) <= v ==> Meant(c) <= Meant(Code(v, false))
  {
    hide Pow2, Mantissa, Exponent, Code, Leading, Size;
    Decodes(v, false);
    Normal(v);
    var e := Exponent(v);
    if e > 3 {
      DivAtLeast(v, Pow2(8 * (e - 3)), 0);
      hide Up, Down, Scaled;
      var word, size := c % 0x80_0000, c / 0x100_0000;
      if Scaled(word, size) <= v {
        if size >= e { Multiple(word, size, v, e); } else { Shorter(word, size, v, e); }
      }
    }
  }

  /** A word with a larger exponent is a multiple of the unit to which v is rounded. */
  lemma Multiple(word: nat, size: nat, v: nat, e: nat)
    requires 3 < e <= size && Scaled(word, size) <= v
    ensures Scaled(word, size) <= Up(Down(v, e - 3), e - 3)
  {
    hide Pow2;
    var d, f := Pow2(8 * (e - 3)), Pow2(8 * (size - e));
    Pow2Add(8 * (size - e), 8 * (e - 3));
    MulAssoc(word, f, d);
    DivAtLeast(v, d, word * f);
    MulMono(d, word * f, v / d);
  }

  /** A word with a smaller exponent is below the smallest mantissa of the larger one. */
  lemma Shorter(word: nat, size: nat, v: nat, e: nat)
    requires 3 < e && size < e && word < 0x80_0000 && Down(v, e - 3) >= 0x8000
    ensures Scaled(word, size) <= Up(Down(v, e - 3), e - 3)
  {
    hide Pow2;
    var d, u := Pow2(8 * (e - 3)), Pow2(8 * (e - 4));
    NextByte(e - 4);
    MulMono(d, 0x8000, v / d);
    if size <= 3 {
      QuotientAtMost(word, Pow2(8 * (3 - size)));
    } else {
      Pow2Mono(8 * (size - 3), 8 * (e - 4));
      MulMono(word, Pow2(8 * (size - 3)), u);
      MulMono(u, word, 0x80_0000);
    }
  }

  /** Rounding keeps the size, so encoding a decoded number gives the same word. */
  lemma Idempotent(v: nat, negative: bool)
    ensures Code(Meant(Code(v, negative)), negative) == Code(v, negative)
  {
    hide Pow2, Mantissa, Exponent, Leading, Size, Up, Down, Scaled;
    Decodes(v, negative);
    if Exponent(v) > 3 { Rounded(v); }
  }

  lemma Rounded(v: nat)
    requires Exponent(v) > 3
    ensures var u := Up(Down(v, Exponent(v) - 3), Exponent(v) - 3); Mantissa(u) == Mantissa(v) && Exponent(u) == Exponent(v)
  {
    hide Pow2, Size;
    var k, n := Exponent(v) - 3, Size(v);
    var d := Pow2(8 * k);
    var u := v / d * d;
    LeadingBound(v);
    Normal(v);
    SizeKept(v, k, n);
    DivExact(v / d, d);
    if Leading(v) >= 0x80_0000 {
      LeadingKept(v, n);
      Normal(u);
    }
  }

  lemma SizeKept(v: nat, k: nat, n: nat)
    requires n == Size(v) && 0 < k < n
    ensures Size(Up(Down(v, k), k)) == n
  {
    hide Pow2, Size;
    var d := Pow2(8 * k);
    SizeBound(v);
    Empty(v);
    Pow2Add(8 * (n - 1 - k), 8 * k);
    DivAtLeast(v, d, Pow2(8 * (n - 1 - k)));
    MulMono(d, Pow2(8 * (n - 1 - k)), v / d);
    SizeIs(v / d * d, n);
  }

  /** Rounding to the unit of the larger exponent keeps the leading bytes at or above the sign bit. */
  lemma LeadingKept(v: nat, n: nat)
    requires n == Size(v) >= 3 && Leading(v) >= 0x80_0000
    ensures Leading(Up(Down(v, n - 2), n - 2)) >= 0x80_0000
  {
    hide Pow2, Size;
    var d, e := Pow2(8 * (n - 2)), Pow2(8 * (n - 3));
    NextByte(n - 3);
    SizeKept(v, n - 2, n);
    assert n == 3 ==> e == 1 by { One(); }
    DivDiv(v, e, 256);
    assert v / d >= 0x8000;
    assert v / d * d == v / d * 256 * e;
    DivExact(v / d * 256, e);
  }

  // ----------------------------------------------------------------- the methods

  /** Assignment from a 64-bit integer. */
  method Assign64(a: array<nat>, b: nat)
    requires a.Length == WIDTH && b < B * B
    modifies a
    ensures Limbs(a[..]) && Val(a[..]) == b
  {
    hide Val, P;
    a[0] := b % B;
    a[1] := b / B;
    for i := 2 to WIDTH
      invariant a[0] == b % B && a[1] == b / B && forall j | 2 <= j < i :: a[j] == 0
    {
      a[i] := 0;
    }
    LowLimbs(a[..]);
    Zeros(a[..][2..]);
  }

  lemma LowLimbs(s: seq<nat>)
    requires |s| == WIDTH && Limbs(s)
    ensures Val(s) == s[0] + s[1] * B + Val(s[2..]) * (B * B)
  {
    hide Val, P;
    ValNext(s, 0);
    ValNext(s, 1);
    ValWhole(s);
    ValSplit(s, 2);
    PowerFacts();
    NextPower(1);
  }

  method GetLow64(a: array<nat>) returns (r: nat)
    requires a.Length == WIDTH && Limbs(a[..])
    ensures r == Val(a[..]) % (B * B)
  {
    hide Val, P, BitOr, Pow2;
    TwoTo32();
    OrDisjoint(a[1] * B, a[0], 32);
    r := BitOr(a[0], a[1] * B);
    LowLimbs(a[..]);
    DivModIs(Val(a[..]), B * B, Val(a[..][2..]), r);
  }

  /** The overflow test of SetCompact is exact. */
  lemma OverflowExact(word: nat, size: nat)
    requires word < 0x80_0000
    ensures (word != 0 && (size > 34 || (word > 0xff && size > 33) || (word > 0xffff && size > 32))) <==> Scaled(word, size) >= P(WIDTH)
  {
    hide Pow2, P;
    Byte();
    PowerOfTwo(WIDTH);
    if size <= 3 {
      QuotientAtMost(word, Pow2(8 * (3 - size)));
      Pow2Mono(23, 256);
    } else {
      var k := size - 3;
      if k >= 32 {
        Pow2Mono(256, 8 * k);
        if word > 0 { MulMono(Pow2(8 * k), 1, word); }
      } else {
        Pow2Add(8 * k, 256 - 8 * k);
        if word >= Pow2(256 - 8 * k) { MulMono(Pow2(8 * k), Pow2(256 - 8 * k), word); }
        else { MulMono(Pow2(8 * k), word + 1, Pow2(256 - 8 * k)); MulDistrib(word, 1, Pow2(8 * k)); }
        if k <= 29 { Pow2Mono(24, 256 - 8 * k); }
      }
    }
  }

  method SetCompact(a: array<nat>, c: nat) returns (negative: bool, overflow: bool)
    requires a.Length == WIDTH && c < B
    modifies a
    ensures Limbs(a[..]) && Val(a[..]) == Meant(c) % P(WIDTH)
    ensures negative <==> Meant(c) != 0 && SignBit(c)
    ensures overflow <==> Meant(c) >= P(WIDTH)
  {
    hide Val, P, Pow2, Up, Down;
    var size, word := c / 0x100_0000, c % 0x80_0000;
    OverflowExact(word, size);
    InRegister(word, size);
    if size <= 3 {
      word := Down(word, 3 - size);
      Assign64(a, word);
    } else {
      Assign64(a, word);
      ShiftLeft(a, 8 * (size - 3));
    }
    negative := word != 0 && SignBit(c);
    overflow := word != 0 && (size > 34 || (word > 0xff && size > 33) || (word > 0xffff && size > 32));
  }

  lemma InRegister(word: nat, size: nat)
    requires word < 0x80_0000
    ensures size <= 3 ==> Down(word, 3 - size) <= word && Down(word, 3 - size) % P(WIDTH) == Down(word, 3 - size)
    ensures size > 3 ==> Up(word, size - 3) == word * Pow2(8 * (size - 3)) && (word == 0 <==> Up(word, size - 3) == 0)
  {
    hide P, Pow2;
    PowerFacts();
    if size <= 3 {
      QuotientAtMost(word, Pow2(8 * (3 - size)));
    } else if word > 0 {
      MulMono(Pow2(8 * (size - 3)), 1, word);
    }
  }

  /** The leading bytes fit the 64 bits that are read. */
  lemma LowWord(v: nat)
    ensures Leading(v) % (B * B) == Leading(v)
    ensures Size(v) <= 3 ==> v % (B * B) == v
  {
    hide Pow2, Size, Up, Down;
    LeadingBound(v);
    SizeBound(v);
    Byte();
    if Size(v) <= 3 { Pow2Mono(8 * Size(v), 24); }
  }

  /** The three leading bytes of the register, and its size. */
  method Head(a: array<nat>) returns (c: nat, size: nat)
    requires a.Length == WIDTH && Limbs(a[..])
    ensures size == Size(Val(a[..])) <= 32 && c == Leading(Val(a[..]))
  {
    hide Val, P, Pow2, Size;
    var bits := Bits(a);
    SizeBits(Val(a[..]), bits);
    LowWord(Val(a[..]));
    size := (bits + 7) / 8;
    if size <= 3 {
      c := GetLow64(a);
      c := Up(c, 3 - size) % (B * B);
    } else {
      var bn := Division.Copy(a);
      ShiftRight(bn, 8 * (size - 3));
      c := GetLow64(bn);
    }
  }

  method GetCompact(a: array<nat>, negative: bool) returns (c: nat)
    requires a.Length == WIDTH && Limbs(a[..])
    ensures c == Code(Val(a[..]), negative)
  {
    hide Val, Pow2, Size, Leading, BitOr, BitAnd;
    ghost var v := Val(a[..]);
    var size;
    c, size := Head(a);
    Byte();
    LeadingBound(v);
    TopBitSet(c, 23);
    if BitAnd(c, 0x80_0000) != 0 {
      c := c / 256;
      size := size + 1;
    }
    Normal(v);
    hide Up, Down, Mantissa, Exponent;
    assert c < 0x80_0000 && size < 256;
    Assembled(c, size);
    c := BitOr(c, 0x100_0000 * size);
    if negative && c % 0x80_0000 != 0 { c := BitOr(c, 0x80_0000); }
  }

  lemma Assembled(m: nat, e: nat)
    requires m < 0x80_0000
    ensures BitOr(m, 0x100_0000 * e) == m + 0x100_0000 * e
    ensures (m + 0x100_0000 * e) % 0x80_0000 == m
    ensures BitOr(m + 0x100_0000 * e, 0x80_0000) == m + 0x100_0000 * e + 0x80_0000
  {
    hide BitOr, Pow2;
    Byte();
    Fields(m, e, 0);
    DivModIs(0x100_0000 * e, 0x100_0000, e, 0);
    OrDisjoint(0x100_0000 * e, m, 24);
    OrLow(0x100_0000 * e, m, 0x80_0000, 24);
    OrDisjoint(0x80_0000, m, 23);
  }
}
