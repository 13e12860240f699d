/** Work and difficulty: GetBlockProof (src/chain.cpp), CheckProofOfWork (src/pow.cpp) and the
    DigiShield retarget of CalculateKubuNextWorkRequired (src/kubu.cpp). */
module Difficulty {
  import opened Powers
  import opened Arith256
  import opened Division
  import opened Compact

  // ----------------------------------------------------------------- block proof

  /** A compact word for a usable target. */
  ghost predicate Usable(c: nat) { Meant(c) != 0 && !SignBit(c) && Meant(c) < P(WIDTH) }

  /** The expected number of hashes to find one that is not above the target. */
  ghost function Work(c: nat): nat { if Usable(c) then P(WIDTH) / (Meant(c) + 1) else 0 }

  /** A compact target is never all ones, so the number after it is in range. */
  lemma NotAllOnes(c: nat)
    ensures Meant(c) + 1 != P(WIDTH)
  {
    hide P, Pow2;
    PowerFacts();
    var word, size := c % 0x80_0000, c / 0x100_0000;
    if size <= 3 {
      QuotientAtMost(word, Pow2(8 * (3 - size)));
    } else {
      NextByte(size - 4);
      assert word * (256 * Pow2(8 * (size - 4))) == 256 * (word * Pow2(8 * (size - 4)));
    }
  }

  /** The quotient is computed without the dividend 2^256, which the register cannot hold. */
  lemma ProofIdentity(m: nat, t: nat)
    requires 0 < t && t + 1 < m
    ensures (m - 1 - t) / (t + 1) + 1 == m / (t + 1) < m
  {
    var d := t + 1;
    var q := (m - d) / d;
    assert m - d == d * q + (m - d) % d;
    MulDistrib(q, 1, d);
    DivModIs(m, d, q + 1, (m - d) % d);
    MulMono(q + 1, 2, d);
  }

  method GetBlockProof(bits: nat) returns (work: array<nat>)
    requires bits < B
    ensures fresh(work) && work.Length == WIDTH && Limbs(work[..])
    ensures Val(work[..]) == Work(bits)
  {
    hide Val, P, Meant, SignBit;
    PowerFacts();
    var target := new nat[WIDTH];
    var negative, overflow := SetCompact(target, bits);
    work := new nat[WIDTH];
    Assign64(work, 0);
    if overflow { return; }
    DivModIs(Meant(bits), P(WIDTH), 0, Meant(bits));
    var sign := CompareTo(target, work);
    if negative || sign == 0 { return; }
    ghost var t := Meant(bits);
    NotAllOnes(bits);
    ProofIdentity(P(WIDTH), t);
    work := Not(target);
    Increment(target);
    DivModIs(t + 1, P(WIDTH), 0, t + 1);
    var thrown := Div(work, target);
    Increment(work);
    DivModIs(P(WIDTH) / (t + 1), P(WIDTH), 0, P(WIDTH) / (t + 1));
  }

  lemma SmallerDivisor(m: nat, s: nat, t: nat)
    requires 0 < s <= t
    ensures m / t <= m / s
  {
    DivAtLeast(m, t, 0);
    MulMono(m / t, s, t);
    DivAtLeast(m, s, m / t);
  }

  /** Every usable target is worth something, and a smaller one never less. */
  lemma HarderIsMoreWork(c: nat, c': nat)
    requires Usable(c) && Usable(c') && Meant(c) <= Meant(c')
    ensures 0 < Work(c') <= Work(c)
  {
    hide P, Meant, SignBit;
    SmallerDivisor(P(WIDTH), Meant(c) + 1, Meant(c') + 1);
    DivAtLeast(P(WIDTH), Meant(c') + 1, 1);
  }

  method CheckProofOfWork(hash: array<nat>, bits: nat, limit: array<nat>) returns (ok: bool)
    requires bits < B && hash.Length == WIDTH && Limbs(hash[..]) && limit.Length == WIDTH && Limbs(limit[..])
    ensures ok <==> Usable(bits) && Val(hash[..]) <= Meant(bits) <= Val(limit[..])
  {
    hide Val, P, Meant, SignBit;
    var target, zero := new nat[WIDTH], new nat[WIDTH];
    var negative, overflow := SetCompact(target, bits);
    if overflow { return false; }
    DivModIs(Meant(bits), P(WIDTH), 0, Meant(bits));
    Assign64(zero, 0);
    var sign := CompareTo(target, zero);
    var range := CompareTo(target, limit);
    if negative || sign == 0 || range > 0 { return false; }
    var c := CompareTo(hash, target);
    return c <= 0;
  }

  // ------------------------------------------------------------------- retarget

  datatype Params = Params(timespan: nat, digishield: bool, limit: nat)

  /** Division that rounds towards zero. */
  function Eighth(x: int): int { if x >= 0 then x / 8 else -(-x / 8) }

  function Least(p: Params, height: nat): nat {
    if p.digishield then p.timespan - p.timespan / 4
    else if height > 10000 then p.timespan / 4
    else if height > 5000 then p.timespan / 8
    else p.timespan / 16
  }

  function Most(p: Params): nat { if p.digishield then p.timespan + p.timespan / 2 else p.timespan * 4 }

  /** The time the last interval is taken to have lasted. */
  function Modulated(p: Params, height: nat, elapsed: int): (r: nat)
    ensures Least(p, height) <= r <= Most(p)
  {
    var t := if p.digishield then p.timespan + Eighth(elapsed - p.timespan) else elapsed;
    if t < Least(p, height) then Least(p, height) else if t > Most(p) then Most(p) else t
  }

  function Min(a: nat, b: nat): nat { if a < b then a else b }

  /** The quotient the register computes, and the exact one. */
  ghost function Computed(target: nat, time: nat, timespan: nat): nat
    requires timespan > 0
  {
    if P(WIDTH) == 0 then 0 else (target * time) % P(WIDTH) / timespan
  }

  function Exact(target: nat, time: nat, timespan: nat): nat
    requires timespan > 0
  {
    var x: nat := target * time; x / timespan
  }

  /** The register holds the exact quotient just when the product does not wrap. */
  lemma ExactIff(target: nat, time: nat, timespan: nat)
    requires 0 < timespan <= P(WIDTH)
    ensures Computed(target, time, timespan) == Exact(target, time, timespan) <==> target * time < P(WIDTH)
  {
    hide P;
    var x: nat, m := target * time, P(WIDTH);
    if x < m {
      DivModIs(x, m, 0, x);
    } else {
      var y := x % m;
      assert x == m * (x / m) + y;
      DivAtLeast(x, m, 1);
      MulMono(m, 1, x / m);
      DivAtLeast(y, timespan, 0);
      MulDistrib(y / timespan, 1, timespan);
      DivAtLeast(x, timespan, y / timespan + 1);
    }
  }

  /** The target after a retarget without wrap. */
  ghost function NextTarget(p: Params, height: nat, elapsed: int, target: nat): nat
    requires p.timespan > 0
  {
    Meant(Code(Min(p.limit, Exact(target, Modulated(p, height, elapsed), p.timespan)), false))
  }

  method Scale(target: array<nat>, time: nat, timespan: nat)
    requires target.Length == WIDTH && Limbs(target[..]) && time < B && 0 < timespan < B * B
    modifies target
    ensures Limbs(target[..]) && Val(target[..]) == Computed(old(Val(target[..])), time, timespan)
  {
    hide Val, P;
    PowerFacts();
    MulWord(target, time);
    var divisor := new nat[WIDTH];
    Assign64(divisor, timespan);
    var _ := Div(target, divisor);
  }

  /** The retarget of the block at the given height, after one with the given bits.  The time
      goes into a 32-bit multiplier, which keeps its low 32 bits; below 2^61 four timespans fit the
      signed 64 bits they are computed in. */
  method CalculateNextWork(bits: nat, height: nat, elapsed: int, p: Params, limit: array<nat>) returns (r: nat)
    requires bits < B && 0 < p.timespan < 0x2000_0000_0000_0000
    requires limit.Length == WIDTH && Limbs(limit[..]) && Val(limit[..]) == p.limit
    ensures P(WIDTH) > 0
    ensures r == Code(Min(p.limit, Computed(Meant(bits) % P(WIDTH), Modulated(p, height, elapsed) % B, p.timespan)), false)
    ensures Meant(bits) * Modulated(p, height, elapsed) < P(WIDTH) && 0 < Modulated(p, height, elapsed) < B ==>
              Meant(r) == NextTarget(p, height, elapsed, Meant(bits))
  {
    hide Val, P, Meant, SignBit, Code, Computed, Modulated, Exact;
    PositivePower(WIDTH);
    var time := Modulate(height, elapsed, p);
    var target := new nat[WIDTH];
    var _, _ := SetCompact(target, bits);
    Scale(target, time % B, p.timespan);
    var c := CompareTo(target, limit);
    if c > 0 { target := limit; }
    r := GetCompact(target, false);
    if Meant(bits) * time < P(WIDTH) && 0 < time < B { NoWrap(Meant(bits), time, p.timespan); }
  }

  method Modulate(height: nat, elapsed: int, p: Params) returns (time: nat)
    ensures time == Modulated(p, height, elapsed)
  {
    var t := elapsed;
    if p.digishield { t := p.timespan + Eighth(t - p.timespan); }
    var least, most := Least(p, height), Most(p);
    if t < least { t := least; } else if t > most { t := most; }
    time := t;
  }

  lemma NoWrap(target: nat, time: nat, timespan: nat)
    requires target * time < P(WIDTH) && 0 < time < B && 0 < timespan < B * B
    ensures Computed(target % P(WIDTH), time % B, timespan) == Exact(target, time, timespan)
  {
    hide P, Computed, Exact;
    MulMono(target, 1, time);
    DivModIs(target, P(WIDTH), 0, target);
    DivModIs(time, B, 0, time);
    assert timespan <= P(WIDTH) by { Roomy(timespan); }
    ExactIff(target, time, timespan);
  }

  lemma Roomy(timespan: nat)
    requires timespan < B * B
    ensures timespan <= P(WIDTH)
  {
    PowerFacts();
  }

  /** The multiplier holds every time if and only if it holds the longest one; with DigiShield that
      is so up to a timespan of 2863311530 seconds, without it below 2^30. */
  lemma MultiplierHolds(p: Params, height: nat)
    ensures (forall elapsed: int :: Modulated(p, height, elapsed) < B) <==>
            if p.digishield then p.timespan <= 2863311530 else p.timespan < 0x4000_0000
  {
    var longest := 8 * Most(p) + p.timespan;
    assert Modulated(p, height, longest) == Most(p);
    assert Most(p) < B <==> if p.digishield then p.timespan <= 2863311530 else p.timespan < 0x4000_0000;
  }

  /** With a timespan of 2^30 seconds and without DigiShield, blocks that took 2^32 seconds leave
      nothing in the multiplier: the next target is zero, instead of four times the last one. */
  lemma MultiplierEmpty(target: nat, limit: nat)
    ensures var p := Params(0x4000_0000, false, limit);
            && Modulated(p, 0, B) == B && Computed(target, Modulated(p, 0, B) % B, p.timespan) == 0
            && Meant(Code(Min(limit, Computed(target, Modulated(p, 0, B) % B, p.timespan)), false)) == 0
            && Exact(target, Modulated(p, 0, B), p.timespan) == 4 * target
  {
    hide P, Meant, Code;
    PositivePower(WIDTH);
    DivModIs(0, P(WIDTH), 0, 0);
    var x: nat := target * B;
    DivModIs(x, 0x4000_0000, 4 * target, 0);
    Nearest(0, 0);
  }

  /** On the main chain the product never wraps. */
  lemma MainChainExact(p: Params, height: nat, elapsed: int, target: nat)
    requires p.digishield && p.timespan == 54 && p.limit < Pow2(236) && target <= p.limit
    ensures 41 <= Modulated(p, height, elapsed) <= 81
    ensures Computed(target, Modulated(p, height, elapsed), 54) == Exact(target, Modulated(p, height, elapsed), 54)
  {
    hide Pow2, P;
    var m := Modulated(p, height, elapsed);
    PowerFacts();
    PowerOfTwo(WIDTH);
    Pow2Add(236, 20);
    assert Pow2(20) >= 82 by { Pow2Mono(7, 20); assert Pow2(7) == 128 by { Seven(); } }
    MulMono(m, target, Pow2(236));
    MulMono(Pow2(236), m, Pow2(20));
    MulMono(Pow2(236), m + 1, Pow2(20));
    MulDistrib(m, 1, Pow2(236));
    ExactIff(target, m, 54);
  }

  lemma Seven()
    ensures Pow2(7) == 128
  {
  }

  /** The next target is the largest representable one within the limit and the exact quotient;
      it is never more than half as large again. */
  lemma Bounded(p: Params, height: nat, elapsed: int, target: nat, c: nat)
    requires p.timespan > 0
    ensures var u := NextTarget(p, height, elapsed, target);
            && u <= p.limit && u <= Exact(target, Modulated(p, height, elapsed), p.timespan)
            && (Meant(c) <= p.limit && Meant(c) <= Exact(target, Modulated(p, height, elapsed), p.timespan) ==> Meant(c) <= u)
            && (p.digishield ==> 2 * u <= 3 * target)
  {
    hide Meant, Code;
    var time := Modulated(p, height, elapsed);
    Nearest(Min(p.limit, Exact(target, time, p.timespan)), c);
    if p.digishield { Grows(target, time, p.timespan); }
  }

  lemma Grows(target: nat, time: nat, timespan: nat)
    requires timespan > 0 && 2 * time <= 3 * timespan
    ensures 2 * Exact(target, time, timespan) <= 3 * target
  {
    var x: nat := target * time;
    DivAtLeast(x, timespan, 0);
    var q := x / timespan;
    MulMono(target, 2 * time, 3 * timespan);
    if 2 * q > 3 * target { MulMono(timespan, 3 * target + 1, 2 * q); }
  }

  /** A longer interval or an easier target before never gives a harder target after. */
  lemma Monotone(p: Params, height: nat, e: int, e': int, t: nat, t': nat)
    requires p.timespan > 0 && e <= e' && t <= t'
    ensures NextTarget(p, height, e, t) <= NextTarget(p, height, e', t')
  {
    hide Meant, Code, Exact;
    var m, m' := Modulated(p, height, e), Modulated(p, height, e');
    assert m <= m';
    ExactGrows(t, t', m, m', p.timespan);
    var x, x' := Min(p.limit, Exact(t, m, p.timespan)), Min(p.limit, Exact(t', m', p.timespan));
    Nearest(x, 0);
    Nearest(x', Code(x, false));
  }

  lemma ExactGrows(t: nat, t': nat, m: nat, m': nat, timespan: nat)
    requires t <= t' && m <= m' && timespan > 0
    ensures Exact(t, m, timespan) <= Exact(t', m', timespan)
  {
    MulMono(m, t, t');
    MulMono(t', m, m');
    var x: nat, x': nat := t * m, t' * m';
    DivAtLeast(x, timespan, 0);
    DivAtLeast(x', timespan, x / timespan);
  }

  /** An interval within eight seconds of the timespan leaves the target alone. */
  lemma OnSchedule(p: Params, height: nat, elapsed: int, bits: nat)
    requires p.digishield && p.timespan > 0 && -8 < elapsed - p.timespan < 8 && Meant(bits) <= p.limit
    ensures NextTarget(p, height, elapsed, Meant(bits)) == Meant(bits)
  {
    hide Meant, Code;
    assert Modulated(p, height, elapsed) == p.timespan;
    DivExact(Meant(bits), p.timespan);
    Nearest(Meant(bits), bits);
  }

  /** The next target is positive exactly when the product reaches the timespan. */
  lemma StaysPositive(p: Params, height: nat, elapsed: int, target: nat)
    requires p.timespan > 0 && p.limit > 0
    ensures NextTarget(p, height, elapsed, target) > 0 <==> target * Modulated(p, height, elapsed) >= p.timespan
  {
    hide Meant, Code, Modulated, Exact;
    var time := Modulated(p, height, elapsed);
    ExactPositive(target, time, p.timespan);
    var x := Min(p.limit, Exact(target, time, p.timespan));
    assert Meant(0x101_0000) == 1 by { Unit(); }
    Nearest(x, 0x101_0000);
  }

  lemma ExactPositive(target: nat, time: nat, timespan: nat)
    requires timespan > 0
    ensures Exact(target, time, timespan) > 0 <==> target * time >= timespan
  {
    var x: nat := target * time;
    DivAtLeast(x, timespan, 1);
  }

  lemma Unit()
    ensures Meant(0x101_0000) == 1
  {
    Byte();
  }

  /** With a four-hour timespan and the limit 2^255 - 1 the product can wrap: slow blocks at the
      easiest target then make the next target some 7000 times harder instead of keeping it. */
  lemma WrapsOnLongTimespan()
    ensures var p := Params(14400, false, Pow2(255) - 1);
            && Meant(0x207f_ffff) <= p.limit
            && Computed(Meant(0x207f_ffff), Modulated(p, 0, 57600), 14400) < Meant(0x207f_ffff) / 7000
            && Exact(Meant(0x207f_ffff), Modulated(p, 0, 57600), 14400) > p.limit
  {
    hide P, Pow2;
    PowerFacts();
    PowerOfTwo(WIDTH);
    Pow2Add(232, 24);
    Pow2Add(232, 23);
    Byte();
    var d := Pow2(232);
    assert Meant(0x207f_ffff) == 0x7f_ffff * d;
    assert 0x7f_ffff * d * 57600 == P(WIDTH) * 28799 + 16719616 * d;
    DivModIs(0x7f_ffff * d * 57600, P(WIDTH), 28799, 16719616 * d);
  }
}
