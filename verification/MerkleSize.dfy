/** The size of a partial Merkle tree: what src/merkleblock.h promises about the number of hashes
    and of flag bits. */
module MerkleSize {
  import opened Powers
  import opened MerkleSpec
  import opened MerkleProofs

  // --------------------------------------------------------------------- hashes

  lemma {:induction false} SomeMatched(txids: seq<Digest>, wanted: seq<bool>, lo: nat, hi: nat)
    requires |wanted| == |txids| && AnyMatch(wanted, lo, hi)
    ensures Matched(txids, wanted, lo, hi) != []
    decreases hi - lo
  {
    if !wanted[lo] { SomeMatched(txids, wanted, lo + 1, hi); }
  }

  lemma Levels(a: nat, b: nat, height: nat)
    requires height > 0 && a + b > 0
    ensures 1 + a * (height - 1) + 1 + b * (height - 1) <= 1 + (a + b) * height
    ensures 1 + a * (height - 1) <= 1 + a * height
  {
    assert a * (height - 1) + b * (height - 1) == (a + b) * height - (a + b);
  }

  /** At most one hash for every match and level, and one more. */
  lemma {:induction false} FewHashes(h: Hasher, txids: seq<Digest>, wanted: seq<bool>, height: nat, pos: nat)
    requires |wanted| == |txids| && pos < Width(|txids|, height)
    ensures |Build(h, txids, wanted, height, pos).hashes| <=
            1 + |Matched(txids, wanted, First(height, pos), First(height, pos + 1))| * height
    decreases height
  {
    hide Width, First, AnyMatch, CalcHash, Matched;
    if height > 0 && AnyMatch(wanted, First(height, pos), First(height, pos + 1)) {
      BuildBelow(h, txids, wanted, height, pos);
      SomeMatched(txids, wanted, First(height, pos), First(height, pos + 1));
      MatchedBelow(txids, wanted, height, pos);
      var a := |Matched(txids, wanted, First(height - 1, 2 * pos), First(height - 1, 2 * pos + 1))|;
      FewHashes(h, txids, wanted, height - 1, 2 * pos);
      if 2 * pos + 1 < Width(|txids|, height - 1) {
        var b := |Matched(txids, wanted, First(height - 1, 2 * pos + 1), First(height - 1, 2 * pos + 2))|;
        FewHashes(h, txids, wanted, height - 1, 2 * pos + 1);
        Levels(a, b, height);
      } else {
        Levels(a, 0, height);
      }
    }
  }

  /** The leaves of the explored part of the tree below a node: nodes without a match, and leaves of
      the whole tree. */
  function Frontier(n: nat, wanted: seq<bool>, height: nat, pos: nat): nat
    requires pos < Width(n, height)
    decreases height
  {
    if height == 0 || !AnyMatch(wanted, First(height, pos), First(height, pos + 1)) then 1
    else
      WidthBelow(n, height, pos);
      Frontier(n, wanted, height - 1, 2 * pos)
      + if 2 * pos + 1 < Width(n, height - 1) then Frontier(n, wanted, height - 1, 2 * pos + 1) else 0
  }

  /** Each of them gives one hash, and no other node does. */
  lemma {:induction false} HashesExact(h: Hasher, txids: seq<Digest>, wanted: seq<bool>, height: nat, pos: nat)
    requires pos < Width(|txids|, height)
    ensures |Build(h, txids, wanted, height, pos).hashes| == Frontier(|txids|, wanted, height, pos)
    decreases height
  {
    hide Width, First, AnyMatch, CalcHash;
    if height > 0 && AnyMatch(wanted, First(height, pos), First(height, pos + 1)) {
      BuildBelow(h, txids, wanted, height, pos);
      HashesExact(h, txids, wanted, height - 1, 2 * pos);
      if 2 * pos + 1 < Width(|txids|, height - 1) { HashesExact(h, txids, wanted, height - 1, 2 * pos + 1); }
    }
  }

  // ----------------------------------------------------------------------- bits

  /** The nodes with a single child that are explored below a node, itself included. */
  function Singles(n: nat, wanted: seq<bool>, height: nat, pos: nat): nat
    requires pos < Width(n, height)
    decreases height
  {
    if height == 0 || !AnyMatch(wanted, First(height, pos), First(height, pos + 1)) then 0
    else
      WidthBelow(n, height, pos);
      Singles(n, wanted, height - 1, 2 * pos)
      + if 2 * pos + 1 < Width(n, height - 1) then Singles(n, wanted, height - 1, 2 * pos + 1) else 1
  }

  /** A node explored has two children, except for those with a single one. */
  lemma {:induction false} BitsExact(h: Hasher, txids: seq<Digest>, wanted: seq<bool>, height: nat, pos: nat)
    requires pos < Width(|txids|, height)
    ensures var b := Build(h, txids, wanted, height, pos);
            |b.bits| + 1 == 2 * |b.hashes| + Singles(|txids|, wanted, height, pos)
    decreases height
  {
    hide Width, First, AnyMatch, CalcHash;
    if height > 0 && AnyMatch(wanted, First(height, pos), First(height, pos + 1)) {
      BuildBelow(h, txids, wanted, height, pos);
      BitsExact(h, txids, wanted, height - 1, 2 * pos);
      if 2 * pos + 1 < Width(|txids|, height - 1) { BitsExact(h, txids, wanted, height - 1, 2 * pos + 1); }
    }
  }

  lemma Halves(n: nat, height: nat)
    requires height > 0 && n > 0
    ensures 0 < Width(n, height) && (Width(n, height - 1) == 2 * Width(n, height) - 1 || Width(n, height - 1) == 2 * Width(n, height))
  {
    hide Width, First;
    var w := Width(n, height);
    WidthIff(n, height, 0);
    AtZero(height);
    WidthIff(n, height, w - 1);
    FirstSplit(height, w - 1);
    WidthIff(n, height - 1, 2 * (w - 1));
    WidthIff(n, height, w);
    FirstSplit(height, w);
    WidthIff(n, height - 1, 2 * w);
  }

  /** The last node of a height has a single child and is explored. */
  ghost predicate RaggedAt(n: nat, wanted: seq<bool>, k: nat)
    requires n > 0
  {
    k > 0 && Width(n, k - 1) % 2 == 1 && (Halves(n, k); AnyMatch(wanted, First(k, Width(n, k) - 1), First(k, Width(n, k))))
  }

  ghost predicate Ragged(n: nat, wanted: seq<bool>, height: nat)
    requires n > 0
  {
    exists k: nat :: k <= height && RaggedAt(n, wanted, k)
  }

  /** The last node of a height lies below the last node of every greater height. */
  lemma {:induction false} LastNested(n: nat, k: nat, height: nat)
    requires n > 0 && k <= height
    ensures 0 < Width(n, k) && 0 < Width(n, height)
    ensures First(height, Width(n, height) - 1) <= First(k, Width(n, k) - 1)
    ensures First(k, Width(n, k)) <= First(height, Width(n, height))
    decreases height
  {
    hide Width, First;
    WidthIff(n, k, 0);
    AtZero(k);
    if k < height {
      LastNested(n, k, height - 1);
      Halves(n, height);
      FirstSplit(height, Width(n, height) - 1);
      FirstSplit(height, Width(n, height));
    }
  }

  lemma Covered(wanted: seq<bool>, lo: nat, hi: nat, lo': nat, hi': nat)
    requires AnyMatch(wanted, lo, hi) && lo' <= lo && hi <= hi'
    ensures AnyMatch(wanted, lo', hi')
  {
  }

  lemma NotRagged(n: nat, wanted: seq<bool>, height: nat)
    requires n > 0 && (height == 0 || !AnyMatch(wanted, First(height, Width(n, height) - 1), First(height, Width(n, height))))
    requires 0 < Width(n, height)
    ensures !Ragged(n, wanted, height)
  {
    hide Width, First, AnyMatch;
    if Ragged(n, wanted, height) {
      var k: nat :| k <= height && RaggedAt(n, wanted, k);
      LastNested(n, k, height);
      Covered(wanted, First(k, Width(n, k) - 1), First(k, Width(n, k)), First(height, Width(n, height) - 1), First(height, Width(n, height)));
    }
  }

  /** Only the last node of a height has such nodes below it, and there is at most one a level. */
  lemma {:induction false} SinglesIff(n: nat, wanted: seq<bool>, height: nat, pos: nat)
    requires pos < Width(n, height) && n > 0
    ensures Singles(n, wanted, height, pos) > 0 <==> pos == Width(n, height) - 1 && Ragged(n, wanted, height)
    ensures Singles(n, wanted, height, pos) <= height
    decreases height
  {
    hide Width, First, AnyMatch, RaggedAt, Ragged;
    if height == 0 || !AnyMatch(wanted, First(height, pos), First(height, pos + 1)) {
      if pos == Width(n, height) - 1 { NotRagged(n, wanted, height); }
    } else {
      Halves(n, height);
      SinglesIff(n, wanted, height - 1, 2 * pos);
      if 2 * pos + 1 < Width(n, height - 1) { SinglesIff(n, wanted, height - 1, 2 * pos + 1); }
      if pos == Width(n, height) - 1 { RaggedStep(n, wanted, height); }
    }
  }

  lemma RaggedStep(n: nat, wanted: seq<bool>, height: nat)
    requires n > 0 && height > 0 && 0 < Width(n, height)
    requires AnyMatch(wanted, First(height, Width(n, height) - 1), First(height, Width(n, height)))
    ensures Ragged(n, wanted, height) <==> Ragged(n, wanted, height - 1) || Width(n, height - 1) % 2 == 1
  {
    hide Width, First, AnyMatch;
    if Ragged(n, wanted, height) {
      var k: nat :| k <= height && RaggedAt(n, wanted, k);
      if k < height { assert k <= height - 1; }
    }
    if Ragged(n, wanted, height - 1) {
      var k: nat :| k <= height - 1 && RaggedAt(n, wanted, k);
      assert k <= height;
    }
    if Width(n, height - 1) % 2 == 1 { assert RaggedAt(n, wanted, height); }
  }

  // ------------------------------------------------------------------- the tree

  /** The promised limits on the hashes of a partial tree, and the number of its bits: the promised
      2 * N - 1 if and only if no node with a single child is explored, and at most one more for
      every level. */
  lemma EncodingSize(h: Hasher, txids: seq<Digest>, wanted: seq<bool>)
    requires txids != [] && |wanted| == |txids|
    ensures var e, height, matched := Encode(h, txids, wanted), Height(|txids|), |Matched(txids, wanted, 0, |txids|)|;
            && |e.hashes| <= |txids| && |e.hashes| <= 1 + matched * height
            && |e.bits| <= 2 * |e.hashes| - 1 + height
            && (|e.bits| <= 2 * |e.hashes| - 1 <==> !Ragged(|txids|, wanted, height))
  {
    hide Width, First, Build, Ragged, Matched, Singles, Height;
    var n, height := |txids|, Height(|txids|);
    RootPos(n);
    WholeTree(n);
    BuildSize(h, txids, wanted, height, 0);
    FewHashes(h, txids, wanted, height, 0);
    MatchedWhole(txids, wanted, First(height, 1));
    BitsExact(h, txids, wanted, height, 0);
    SinglesIff(n, wanted, height, 0);
  }

  lemma ThreeLeaves()
    ensures Width(3, 0) == 3 && Width(3, 1) == 2 && Width(3, 2) == 1
    ensures First(2, 0) == 0 && First(2, 1) == 4 && First(1, 0) == 0 && First(1, 1) == 2 && First(1, 2) == 4
  {
    assert Pow2(0) == 1 && Pow2(1) == 2 && Pow2(2) == 4;
  }

  lemma HeightOfThree()
    ensures Height(3) == 2
  {
    ThreeLeaves();
    hide Width;
    assert HeightFrom(3, 2) == 2 && HeightFrom(3, 1) == 2;
  }

  /** Three transactions with the last one selected: two hashes and four bits. */
  lemma FourBits(h: Hasher, txids: seq<Digest>)
    requires |txids| == 3
    ensures var e := Encode(h, txids, [false, false, true]); |e.hashes| == 2 && |e.bits| == 4
  {
    hide Width, First, Height, CalcHash, Pow2;
    var wanted := [false, false, true];
    ThreeLeaves();
    HeightOfThree();
    assert AnyMatch(wanted, 0, 4) && AnyMatch(wanted, 2, 4) && !AnyMatch(wanted, 0, 2) by { assert wanted[2]; }
    hide AnyMatch;
    BuildBelow(h, txids, wanted, 2, 0);
    BuildBelow(h, txids, wanted, 1, 1);
  }

  /** The bytes a count takes on the wire, for counts below 2^16. */
  function CountSize(n: nat): nat { if n < 253 then 1 else 3 }

  /** The bytes of a serialized partial tree. */
  function WireSize(e: Encoding): nat {
    var bytes := (|e.bits| + 7) / 8;
    4 + CountSize(|e.hashes|) + 32 * |e.hashes| + CountSize(bytes) + bytes
  }

  /** The hashes and the flag bytes of a partial tree, from the number of transactions and the
      selection alone. */
  function HashCount(n: nat, wanted: seq<bool>): nat
    requires n > 0
  {
    RootPos(n);
    Frontier(n, wanted, Height(n), 0)
  }

  function FlagBytes(n: nat, wanted: seq<bool>): nat
    requires n > 0
  {
    RootPos(n);
    (2 * HashCount(n, wanted) + Singles(n, wanted, Height(n), 0) + 6) / 8
  }

  /** The promised size, 10 + ceil(32.25 * N), is kept if and only if the flags take fewer than 253
      bytes or no more than a quarter of a byte for every hash; so it is kept whenever no node with
      a single child is explored. */
  lemma SizeIff(h: Hasher, txids: seq<Digest>, wanted: seq<bool>)
    requires 0 < |txids| == |wanted| <= MAX_BLOCK_BASE_SIZE / 60
    ensures var e, hashes, bytes := Encode(h, txids, wanted), HashCount(|txids|, wanted), FlagBytes(|txids|, wanted);
            && |e.hashes| == hashes && (|e.bits| + 7) / 8 == bytes
            && (WireSize(e) <= 10 + (129 * |e.hashes| + 3) / 4 <==> bytes < 253 || bytes <= (hashes + 3) / 4)
            && (!Ragged(|txids|, wanted, Height(|txids|)) ==> bytes <= (hashes + 3) / 4)
  {
    hide Build, Ragged, Height, Matched, Frontier, Singles, Width;
    EncodingSize(h, txids, wanted);
    RootPos(|txids|);
    HashesExact(h, txids, wanted, Height(|txids|), 0);
    BitsExact(h, txids, wanted, Height(|txids|), 0);
    assert Height(|txids|) <= 15 by { LowTree(|txids|); }
  }

  lemma LowTree(n: nat)
    requires 0 < n <= MAX_BLOCK_BASE_SIZE / 60
    ensures Height(n) <= 15
  {
    Pow2Add(7, 7);
    assert Pow2(7) == 128 && Pow2(14) == 16384 && Pow2(15) == 32768;
    if Height(n) > 15 { Reached(n, 0, 15); }
  }

  lemma {:induction false} Reached(n: nat, from: nat, k: nat)
    requires from <= k < HeightFrom(n, from)
    ensures Width(n, k) > 1 && Pow2(k) < n
    decreases k - from
  {
    Taller(n, from);
    hide Width;
    if from < k { Reached(n, from + 1, k); }
  }

  // ------------------------------------------------- all transactions selected

  ghost predicate All(wanted: seq<bool>) { forall i | 0 <= i < |wanted| :: wanted[i] }

  /** The heights with a node that has a single child. */
  function OddLevels(n: nat, height: nat): nat {
    if height == 0 then 0 else OddLevels(n, height - 1) + Width(n, height - 1) % 2
  }

  lemma Reaches(n: nat, wanted: seq<bool>, height: nat, pos: nat)
    requires All(wanted) && |wanted| == n && pos < Width(n, height)
    ensures AnyMatch(wanted, First(height, pos), First(height, pos + 1))
  {
    hide Width, First;
    WidthIff(n, height, pos);
    FirstBelow(height, pos);
    assert wanted[First(height, pos)];
  }

  lemma {:induction false} AllSingles(n: nat, wanted: seq<bool>, height: nat, pos: nat)
    requires n > 0 && All(wanted) && |wanted| == n && pos < Width(n, height)
    ensures Singles(n, wanted, height, pos) == if pos == Width(n, height) - 1 then OddLevels(n, height) else 0
    decreases height
  {
    hide Width, First, AnyMatch;
    Reaches(n, wanted, height, pos);
    if height > 0 {
      Halves(n, height);
      AllSingles(n, wanted, height - 1, 2 * pos);
      if 2 * pos + 1 < Width(n, height - 1) { AllSingles(n, wanted, height - 1, 2 * pos + 1); }
    }
  }

  function Least(a: nat, b: nat): nat { if a <= b then a else b }

  lemma {:induction false} AllHashes(h: Hasher, txids: seq<Digest>, wanted: seq<bool>, height: nat, pos: nat)
    requires All(wanted) && |wanted| == |txids| && pos < Width(|txids|, height)
    ensures First(height, pos) + |Build(h, txids, wanted, height, pos).hashes| == Least(|txids|, First(height, pos + 1))
    decreases height
  {
    hide Width, First, AnyMatch, CalcHash;
    Reaches(|txids|, wanted, height, pos);
    WidthIff(|txids|, height, pos);
    FirstBelow(height, pos);
    if height > 0 {
      BuildBelow(h, txids, wanted, height, pos);
      FirstSplit(height, pos);
      WidthIff(|txids|, height - 1, 2 * pos + 1);
      AllHashes(h, txids, wanted, height - 1, 2 * pos);
      if 2 * pos + 1 < Width(|txids|, height - 1) { AllHashes(h, txids, wanted, height - 1, 2 * pos + 1); }
    } else {
      FirstBelow(0, pos + 1);
    }
  }

  /** A block of 1025 transactions, all selected: one byte more than promised. */
  lemma OneByteMore(h: Hasher, txids: seq<Digest>, wanted: seq<bool>)
    requires |txids| == |wanted| == 1025 && All(wanted)
    ensures var e := Encode(h, txids, wanted); |e.hashes| == 1025 && |e.bits| == 2059 && WireSize(e) == 10 + (129 * 1025 + 3) / 4 + 1
  {
    hide Width, First, Build, Singles, Height, OddLevels;
    var height := Height(1025);
    RootPos(1025);
    WholeTree(1025);
    AllHashes(h, txids, wanted, height, 0);
    BitsExact(h, txids, wanted, height, 0);
    AllSingles(1025, wanted, height, 0);
    TenOddLevels();
  }

  lemma TenOddLevels()
    ensures Height(1025) == 11 && OddLevels(1025, 11) == 10
  {
    Widths();
    hide Width;
    assert HeightFrom(1025, 11) == 11 && HeightFrom(1025, 10) == 11 && HeightFrom(1025, 9) == 11 && HeightFrom(1025, 8) == 11;
    assert HeightFrom(1025, 7) == 11 && HeightFrom(1025, 6) == 11 && HeightFrom(1025, 5) == 11 && HeightFrom(1025, 4) == 11;
    assert HeightFrom(1025, 3) == 11 && HeightFrom(1025, 2) == 11 && HeightFrom(1025, 1) == 11;
    assert OddLevels(1025, 3) == 3 && OddLevels(1025, 6) == 6 && OddLevels(1025, 9) == 9;
  }

  lemma Widths()
    ensures Width(1025, 0) == 1025 && Width(1025, 1) == 513 && Width(1025, 2) == 257 && Width(1025, 3) == 129
    ensures Width(1025, 4) == 65 && Width(1025, 5) == 33 && Width(1025, 6) == 17 && Width(1025, 7) == 9
    ensures Width(1025, 8) == 5 && Width(1025, 9) == 3 && Width(1025, 10) == 2 && Width(1025, 11) == 1
  {
    assert Width(1025, 0) == 1025;
    hide Width;
    Halves(1025, 1);
    Halves(1025, 2);
    Halves(1025, 3);
    Halves(1025, 4);
    Halves(1025, 5);
    Halves(1025, 6);
    Halves(1025, 7);
    Halves(1025, 8);
    Halves(1025, 9);
    Halves(1025, 10);
    Halves(1025, 11);
  }
}
