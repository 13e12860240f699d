/** Soundness and completeness of partial Merkle trees. */
module MerkleProofs {
  import opened Powers
  import opened MerkleSpec

  // --------------------------------------------------------------- soundness

  lemma Inject(h: Hasher, pairs: set<(Digest, Digest)>, a: Digest, b: Digest, c: Digest, d: Digest)
    requires InjectiveOn(h, pairs) && (a, b) in pairs && (c, d) in pairs && h(a, b) == h(c, d)
    ensures a == c && b == d
  {
    var x, y := (a, b), (c, d);
    assert h(x.0, x.1) == h(y.0, y.1);
  }

  lemma Leaves(n: nat)
    ensures Width(n, 0) == n
  {
  }

  /** Every reported match is the real transaction at its index. */
  ghost predicate Genuine(txids: seq<Digest>, matches: seq<(Digest, nat)>) {
    forall k | 0 <= k < |matches| :: matches[k].1 < |txids| && txids[matches[k].1] == matches[k].0
  }

  /** Whatever the bits and hashes are, a subtree whose hash comes out right reports only
      genuine matches. */
  lemma {:induction false} ExtractSound(h: Hasher, txids: seq<Digest>, e: Encoding, height: nat, pos: nat, c: Cursor, pairs: set<(Digest, Digest)>)
    requires pos < Width(|txids|, height)
    requires InjectiveOn(h, pairs) && TreePairs(h, txids, height, pos) <= pairs
    requires ExtractPairs(h, |txids|, e, height, pos, c) <= pairs
    requires Extract(h, |txids|, e, height, pos, c).0 == CalcHash(h, txids, height, pos)
    requires Genuine(txids, c.matches)
    ensures Genuine(txids, Extract(h, |txids|, e, height, pos, c).1.matches)
    decreases height
  {
    hide Width, InjectiveOn, CalcHash, TreePairs, Genuine;
    var n := |txids|;
    if c.bits < |e.bits| && height > 0 && e.bits[c.bits] {
      TreeBelow(h, txids, height, pos);
      var c1 := c.(bits := c.bits + 1);
      var (left, c2) := Extract(h, n, e, height - 1, 2 * pos, c1);
      var left' := CalcHash(h, txids, height - 1, 2 * pos);
      if 2 * pos + 1 < Width(n, height - 1) {
        var (right, c3) := Extract(h, n, e, height - 1, 2 * pos + 1, c2);
        Inject(h, pairs, left, right, left', CalcHash(h, txids, height - 1, 2 * pos + 1));
        ExtractSound(h, txids, e, height - 1, 2 * pos, c1, pairs);
        ExtractSound(h, txids, e, height - 1, 2 * pos + 1, c2, pairs);
      } else {
        Inject(h, pairs, left, left, left', left');
        ExtractSound(h, txids, e, height - 1, 2 * pos, c1, pairs);
      }
    } else if height == 0 {
      LeafGenuine(h, txids, pos, c.matches);
    }
  }

  lemma LeafGenuine(h: Hasher, txids: seq<Digest>, pos: nat, matches: seq<(Digest, nat)>)
    requires pos < Width(|txids|, 0) && Genuine(txids, matches)
    ensures Genuine(txids, matches + [(CalcHash(h, txids, 0, pos), pos)])
  {
  }

  lemma RootPos(n: nat)
    requires n > 0
    ensures 0 < Width(n, Height(n)) <= 1
  {
    HeightReached(n, 0);
    WidthIff(n, Height(n), 0);
  }

  lemma {:induction false} HeightReached(n: nat, height: nat)
    ensures Width(n, HeightFrom(n, height)) <= 1
    decreases if Width(n, height) > 1 then n + 1 - Pow2(height) else 0
  {
    if Width(n, height) > 1 {
      Taller(n, height);
      HeightReached(n, height + 1);
    }
  }

  /** The Merkle root of a block. */
  function Root(h: Hasher, txids: seq<Digest>): Digest
    requires txids != []
  {
    RootPos(|txids|);
    CalcHash(h, txids, Height(|txids|), 0)
  }

  ghost function RootPairs(h: Hasher, txids: seq<Digest>): set<(Digest, Digest)>
    requires txids != []
  {
    RootPos(|txids|);
    TreePairs(h, txids, Height(|txids|), 0)
  }

  ghost function AllPairs(h: Hasher, txids: seq<Digest>, e: Encoding): set<(Digest, Digest)>
    requires txids != []
  {
    RootPairs(h, txids) + ExtractPairs(h, |txids|, e, Height(|txids|), 0, Cursor(0, 0, false, []))
  }

  /** Soundness: if ExtractMatches returns the nonzero root of a block with that many
      transactions, every match it reports is in the block at that index. */
  lemma ExtractMatchesSound(h: Hasher, txids: seq<Digest>, e: Encoding)
    requires txids != [] && InjectiveOn(h, AllPairs(h, txids, e))
    requires Root(h, txids) != ZERO && ExtractMatches(h, |txids|, e).0 == Root(h, txids)
    ensures Genuine(txids, ExtractMatches(h, |txids|, e).1)
  {
    RootPos(|txids|);
    ExtractSound(h, txids, e, Height(|txids|), 0, Cursor(0, 0, false, []), AllPairs(h, txids, e));
  }

  // -------------------------------------------------------------- completeness

  ghost predicate Distinct(txids: seq<Digest>) {
    forall i, j | 0 <= i < j < |txids| :: txids[i] != txids[j]
  }

  /** Equal hashes at one height start with equal leaves. */
  lemma {:induction false} SameFirstLeaf(h: Hasher, txids: seq<Digest>, height: nat, p: nat, q: nat, pairs: set<(Digest, Digest)>)
    requires p < Width(|txids|, height) && q < Width(|txids|, height)
    requires InjectiveOn(h, pairs) && TreePairs(h, txids, height, p) <= pairs && TreePairs(h, txids, height, q) <= pairs
    requires CalcHash(h, txids, height, p) == CalcHash(h, txids, height, q)
    ensures First(height, p) < |txids| && First(height, q) < |txids| && txids[First(height, p)] == txids[First(height, q)]
    decreases height
  {
    hide Width, InjectiveOn, First;
    Leaves(|txids|);
    FirstBelow(height, p);
    FirstBelow(height, q);
    WidthIff(|txids|, height, p);
    WidthIff(|txids|, height, q);
    if height > 0 {
      WidthBelow(|txids|, height, p);
      WidthBelow(|txids|, height, q);
      var l, l' := CalcHash(h, txids, height - 1, 2 * p), CalcHash(h, txids, height - 1, 2 * q);
      var r := if 2 * p + 1 < Width(|txids|, height - 1) then CalcHash(h, txids, height - 1, 2 * p + 1) else l;
      var r' := if 2 * q + 1 < Width(|txids|, height - 1) then CalcHash(h, txids, height - 1, 2 * q + 1) else l';
      assert (l, r) in pairs && (l', r') in pairs;
      Inject(h, pairs, l, r, l', r');
      SameFirstLeaf(h, txids, height - 1, 2 * p, 2 * q, pairs);
    }
  }

  /** Siblings of a block with distinct transactions have different hashes. */
  lemma SiblingsDiffer(h: Hasher, txids: seq<Digest>, height: nat, p: nat, pairs: set<(Digest, Digest)>)
    requires Distinct(txids) && InjectiveOn(h, pairs)
    requires p + 1 < Width(|txids|, height)
    requires TreePairs(h, txids, height, p) <= pairs && TreePairs(h, txids, height, p + 1) <= pairs
    ensures CalcHash(h, txids, height, p) != CalcHash(h, txids, height, p + 1)
  {
    hide Width, InjectiveOn, CalcHash, TreePairs, First;
    FirstBelow(height, p);
    if CalcHash(h, txids, height, p) == CalcHash(h, txids, height, p + 1) {
      SameFirstLeaf(h, txids, height, p, p + 1, pairs);
      assert false;
    }
  }

  /** The stream e continues with the encoding b at positions i and j. */
  ghost predicate Continues(e: Encoding, i: nat, j: nat, b: Encoding) {
    && i + |b.bits| <= |e.bits| && e.bits[i..i + |b.bits|] == b.bits
    && j + |b.hashes| <= |e.hashes| && e.hashes[j..j + |b.hashes|] == b.hashes
  }

  lemma ContinuesConcat(e: Encoding, i: nat, j: nat, a: Encoding, b: Encoding)
    requires Continues(e, i, j, Concat(a, b))
    ensures Continues(e, i, j, a) && Continues(e, i + |a.bits|, j + |a.hashes|, b)
  {
    var x, y := e.bits[i..i + |a.bits| + |b.bits|], e.hashes[j..j + |a.hashes| + |b.hashes|];
    assert e.bits[i..i + |a.bits|] == x[..|a.bits|] && e.bits[i + |a.bits|..i + |a.bits| + |b.bits|] == x[|a.bits|..];
    assert e.hashes[j..j + |a.hashes|] == y[..|a.hashes|] && e.hashes[j + |a.hashes|..j + |a.hashes| + |b.hashes|] == y[|a.hashes|..];
  }

  lemma {:induction false} NoneMatched(txids: seq<Digest>, wanted: seq<bool>, lo: nat, hi: nat)
    requires |wanted| == |txids| && !AnyMatch(wanted, lo, hi)
    ensures Matched(txids, wanted, lo, hi) == []
    decreases hi - lo
  {
    if lo < hi && lo < |txids| {
      assert !wanted[lo];
      NoneMatched(txids, wanted, lo + 1, hi);
    }
  }

  lemma {:induction false} MatchedSplit(txids: seq<Digest>, wanted: seq<bool>, lo: nat, mid: nat, hi: nat)
    requires |wanted| == |txids| && lo <= mid <= hi
    ensures Matched(txids, wanted, lo, hi) == Matched(txids, wanted, lo, mid) + Matched(txids, wanted, mid, hi)
    decreases mid - lo
  {
    if lo < mid && lo < |txids| {
      MatchedSplit(txids, wanted, lo + 1, mid, hi);
      var head := if wanted[lo] then [(txids[lo], lo)] else [];
      assert head + Matched(txids, wanted, lo + 1, mid) + Matched(txids, wanted, mid, hi)
          == head + (Matched(txids, wanted, lo + 1, mid) + Matched(txids, wanted, mid, hi));
    }
  }

  lemma MatchedBeyond(txids: seq<Digest>, wanted: seq<bool>, lo: nat, hi: nat)
    requires |wanted| == |txids|
    ensures lo >= |txids| ==> Matched(txids, wanted, lo, hi) == []
  {
  }

  lemma FirstSplit(height: nat, pos: nat)
    requires height > 0
    ensures First(height, pos) == First(height - 1, 2 * pos) < First(height - 1, 2 * pos + 1)
    ensures First(height - 1, 2 * pos + 1) < First(height - 1, 2 * pos + 2) == First(height, pos + 1)
  {
  }

  /** The matches below a node are those below its children. */
  lemma MatchedBelow(txids: seq<Digest>, wanted: seq<bool>, height: nat, pos: nat)
    requires |wanted| == |txids| && height > 0
    ensures Matched(txids, wanted, First(height, pos), First(height, pos + 1)) ==
            Matched(txids, wanted, First(height - 1, 2 * pos), First(height - 1, 2 * pos + 1)) +
            if 2 * pos + 1 < Width(|txids|, height - 1)
            then Matched(txids, wanted, First(height - 1, 2 * pos + 1), First(height - 1, 2 * pos + 2)) else []
  {
    hide Width, First, Matched;
    FirstSplit(height, pos);
    MatchedBeyond(txids, wanted, First(height - 1, 2 * pos + 1), First(height, pos + 1));
    MatchedSplit(txids, wanted, First(height, pos), First(height - 1, 2 * pos + 1), First(height, pos + 1));
    WidthIff(|txids|, height - 1, 2 * pos + 1);
  }

  lemma TreeBelow(h: Hasher, txids: seq<Digest>, height: nat, pos: nat)
    requires height > 0 && pos < Width(|txids|, height)
    ensures 2 * pos < Width(|txids|, height - 1)
    ensures TreePairs(h, txids, height - 1, 2 * pos) <= TreePairs(h, txids, height, pos)
    ensures var l := CalcHash(h, txids, height - 1, 2 * pos);
      if 2 * pos + 1 < Width(|txids|, height - 1) then
        var r := CalcHash(h, txids, height - 1, 2 * pos + 1);
        && CalcHash(h, txids, height, pos) == h(l, r) && (l, r) in TreePairs(h, txids, height, pos)
        && TreePairs(h, txids, height - 1, 2 * pos + 1) <= TreePairs(h, txids, height, pos)
      else CalcHash(h, txids, height, pos) == h(l, l) && (l, l) in TreePairs(h, txids, height, pos)
  {
    WidthBelow(|txids|, height, pos);
    hide Width;
  }

  lemma BuildBelow(h: Hasher, txids: seq<Digest>, wanted: seq<bool>, height: nat, pos: nat)
    requires height > 0 && pos < Width(|txids|, height) && AnyMatch(wanted, First(height, pos), First(height, pos + 1))
    ensures 2 * pos < Width(|txids|, height - 1)
    ensures var left := Concat(Encoding([true], []), Build(h, txids, wanted, height - 1, 2 * pos));
      Build(h, txids, wanted, height, pos) ==
        if 2 * pos + 1 < Width(|txids|, height - 1) then Concat(left, Build(h, txids, wanted, height - 1, 2 * pos + 1)) else left
  {
    WidthBelow(|txids|, height, pos);
  }

  /** What the decoder returns after the encoding of a node. */
  ghost function After(h: Hasher, txids: seq<Digest>, wanted: seq<bool>, height: nat, pos: nat, c: Cursor): (Digest, Cursor)
    requires |wanted| == |txids| && pos < Width(|txids|, height)
  {
    var b := Build(h, txids, wanted, height, pos);
    (CalcHash(h, txids, height, pos),
     Cursor(c.bits + |b.bits|, c.hashes + |b.hashes|, c.bad,
            c.matches + Matched(txids, wanted, First(height, pos), First(height, pos + 1))))
  }

  lemma AfterBelow(h: Hasher, txids: seq<Digest>, wanted: seq<bool>, height: nat, pos: nat, c: Cursor)
    requires |wanted| == |txids| && height > 0 && pos < Width(|txids|, height)
    requires AnyMatch(wanted, First(height, pos), First(height, pos + 1))
    ensures 2 * pos < Width(|txids|, height - 1)
    ensures var (l, c1) := After(h, txids, wanted, height - 1, 2 * pos, c.(bits := c.bits + 1));
      After(h, txids, wanted, height, pos, c) ==
        if 2 * pos + 1 < Width(|txids|, height - 1) then
          var (r, c2) := After(h, txids, wanted, height - 1, 2 * pos + 1, c1); (h(l, r), c2)
        else (h(l, l), c1)
  {
    hide Width, First, Build, CalcHash, Matched, AnyMatch, TreePairs;
    TreeBelow(h, txids, height, pos);
    BuildBelow(h, txids, wanted, height, pos);
    MatchedBelow(txids, wanted, height, pos);
    var l := Matched(txids, wanted, First(height - 1, 2 * pos), First(height - 1, 2 * pos + 1));
    FirstSplit(height, pos);
    if 2 * pos + 1 < Width(|txids|, height - 1) {
      var r := Matched(txids, wanted, First(height - 1, 2 * pos + 1), First(height - 1, 2 * pos + 2));
      assert c.matches + (l + r) == c.matches + l + r;
    } else {
      assert l + [] == l;
    }
  }

  lemma BitsBelow(h: Hasher, txids: seq<Digest>, wanted: seq<bool>, e: Encoding, height: nat, pos: nat, i: nat, j: nat)
    requires height > 0 && pos < Width(|txids|, height) && AnyMatch(wanted, First(height, pos), First(height, pos + 1))
    requires Continues(e, i, j, Build(h, txids, wanted, height, pos))
    ensures 2 * pos < Width(|txids|, height - 1)
    ensures i < |e.bits| && e.bits[i]
    ensures var l := Build(h, txids, wanted, height - 1, 2 * pos);
      && Continues(e, i + 1, j, l)
      && (2 * pos + 1 < Width(|txids|, height - 1) ==>
            Continues(e, i + 1 + |l.bits|, j + |l.hashes|, Build(h, txids, wanted, height - 1, 2 * pos + 1)))
  {
    hide Width, First, Build, Continues, AnyMatch;
    BuildBelow(h, txids, wanted, height, pos);
    var head, l := Encoding([true], []), Build(h, txids, wanted, height - 1, 2 * pos);
    if 2 * pos + 1 < Width(|txids|, height - 1) {
      ContinuesConcat(e, i, j, Concat(head, l), Build(h, txids, wanted, height - 1, 2 * pos + 1));
    }
    ContinuesConcat(e, i, j, head, l);
    HeadBit(e, i, j);
  }

  lemma HeadBit(e: Encoding, i: nat, j: nat)
    requires Continues(e, i, j, Encoding([true], []))
    ensures i < |e.bits| && e.bits[i]
  {
    assert e.bits[i] == e.bits[i..i + 1][0];
  }

  /** The decoder retraces the encoder: it recovers the hash and the matches of the subtree,
      uses up exactly its bits and hashes, and rejects nothing. */
  lemma {:induction false} ExtractComplete(h: Hasher, txids: seq<Digest>, wanted: seq<bool>, e: Encoding, height: nat, pos: nat, c: Cursor,
                                           pairs: set<(Digest, Digest)>)
    requires |wanted| == |txids| && pos < Width(|txids|, height) && Distinct(txids)
    requires InjectiveOn(h, pairs) && TreePairs(h, txids, height, pos) <= pairs
    requires Continues(e, c.bits, c.hashes, Build(h, txids, wanted, height, pos))
    ensures Extract(h, |txids|, e, height, pos, c) == After(h, txids, wanted, height, pos, c)
    decreases height
  {
    hide Width, First, InjectiveOn, Distinct, Build, CalcHash, Continues, AnyMatch, Matched, TreePairs;
    if height == 0 || !AnyMatch(wanted, First(height, pos), First(height, pos + 1)) {
      LeafComplete(h, txids, wanted, e, height, pos, c);
    } else {
      BitsBelow(h, txids, wanted, e, height, pos, c.bits, c.hashes);
      AfterBelow(h, txids, wanted, height, pos, c);
      TreeBelow(h, txids, height, pos);
      var c1 := c.(bits := c.bits + 1);
      ExtractComplete(h, txids, wanted, e, height - 1, 2 * pos, c1, pairs);
      if 2 * pos + 1 < Width(|txids|, height - 1) {
        var c2 := Extract(h, |txids|, e, height - 1, 2 * pos, c1).1;
        ExtractComplete(h, txids, wanted, e, height - 1, 2 * pos + 1, c2, pairs);
        SiblingsDiffer(h, txids, height - 1, 2 * pos, pairs);
      }
    }
  }

  lemma LeafComplete(h: Hasher, txids: seq<Digest>, wanted: seq<bool>, e: Encoding, height: nat, pos: nat, c: Cursor)
    requires |wanted| == |txids| && pos < Width(|txids|, height)
    requires height == 0 || !AnyMatch(wanted, First(height, pos), First(height, pos + 1))
    requires Continues(e, c.bits, c.hashes, Build(h, txids, wanted, height, pos))
    ensures Extract(h, |txids|, e, height, pos, c) == After(h, txids, wanted, height, pos, c)
  {
    hide Width, First, CalcHash, Matched;
    Leaves(|txids|);
    FirstBelow(height, pos);
    var m := AnyMatch(wanted, First(height, pos), First(height, pos + 1));
    LeafHead(h, txids, wanted, e, height, pos, c);
    if !m {
      NoneMatched(txids, wanted, First(height, pos), First(height, pos + 1));
      assert c.matches + [] == c.matches;
    } else {
      OneLeaf(txids, wanted, pos);
      LeafHash(h, txids, pos);
    }
  }

  lemma LeafHash(h: Hasher, txids: seq<Digest>, pos: nat)
    requires pos < Width(|txids|, 0)
    ensures Width(|txids|, 0) == |txids| && CalcHash(h, txids, 0, pos) == txids[pos]
  {
    Leaves(|txids|);
  }

  lemma LeafHead(h: Hasher, txids: seq<Digest>, wanted: seq<bool>, e: Encoding, height: nat, pos: nat, c: Cursor)
    requires |wanted| == |txids| && pos < Width(|txids|, height)
    requires height == 0 || !AnyMatch(wanted, First(height, pos), First(height, pos + 1))
    requires Continues(e, c.bits, c.hashes, Build(h, txids, wanted, height, pos))
    ensures c.bits < |e.bits| && e.bits[c.bits] == AnyMatch(wanted, First(height, pos), First(height, pos + 1))
    ensures c.hashes < |e.hashes| && e.hashes[c.hashes] == CalcHash(h, txids, height, pos)
  {
    hide Width, First, CalcHash, AnyMatch;
    var b := Build(h, txids, wanted, height, pos);
    assert |b.bits| == 1 && |b.hashes| == 1;
    assert e.bits[c.bits] == e.bits[c.bits..c.bits + 1][0];
    assert e.hashes[c.hashes] == e.hashes[c.hashes..c.hashes + 1][0];
  }

  lemma OneLeaf(txids: seq<Digest>, wanted: seq<bool>, pos: nat)
    requires |wanted| == |txids| && pos < |txids|
    ensures First(0, pos) == pos && First(0, pos + 1) == pos + 1
    ensures AnyMatch(wanted, pos, pos + 1) <==> wanted[pos]
    ensures wanted[pos] ==> Matched(txids, wanted, pos, pos + 1) == [(txids[pos], pos)]
  {
  }

  // ---------------------------------------------------------------- round trip

  /** An encoding has at most one hash for every leaf below the node, and a bit per hash. */
  lemma {:induction false} BuildSize(h: Hasher, txids: seq<Digest>, wanted: seq<bool>, height: nat, pos: nat)
    requires pos < Width(|txids|, height)
    ensures var b := Build(h, txids, wanted, height, pos);
      && |b.hashes| <= |b.bits|
      && First(height, pos) + |b.hashes| <= |txids| && |b.hashes| <= First(height, pos + 1) - First(height, pos)
    decreases height
  {
    hide Width, First, AnyMatch, CalcHash;
    WidthIff(|txids|, height, pos);
    FirstBelow(height, pos);
    if height > 0 && AnyMatch(wanted, First(height, pos), First(height, pos + 1)) {
      BuildBelow(h, txids, wanted, height, pos);
      FirstSplit(height, pos);
      BuildSize(h, txids, wanted, height - 1, 2 * pos);
      if 2 * pos + 1 < Width(|txids|, height - 1) { BuildSize(h, txids, wanted, height - 1, 2 * pos + 1); }
    }
  }

  /** The constructor: the partial tree of a block and a selection of its transactions. */
  function Encode(h: Hasher, txids: seq<Digest>, wanted: seq<bool>): Encoding
    requires txids != []
  {
    RootPos(|txids|);
    Build(h, txids, wanted, Height(|txids|), 0)
  }

  /** e as it is after its bits have been padded to whole bytes. */
  ghost predicate Padded(e: Encoding, e': Encoding) {
    e'.hashes == e.hashes && e.bits <= e'.bits && |e'.bits| == (|e.bits| + 7) / 8 * 8
  }

  lemma WholeTree(n: nat)
    requires n > 0
    ensures First(Height(n), 0) == 0 && n <= First(Height(n), 1)
  {
    hide Width, First;
    RootPos(n);
    WidthIff(n, Height(n), 1);
    AtZero(Height(n));
  }

  lemma AtZero(height: nat)
    ensures First(height, 0) == 0
  {
  }

  lemma {:induction false} MatchedWhole(txids: seq<Digest>, wanted: seq<bool>, hi: nat)
    requires |wanted| == |txids| <= hi
    ensures Matched(txids, wanted, 0, hi) == Matched(txids, wanted, 0, |txids|)
  {
    hide Matched;
    MatchedSplit(txids, wanted, 0, |txids|, hi);
    MatchedBeyond(txids, wanted, |txids|, hi);
  }

  /** Round trip: encoding a selection, padding its bits and extracting yields the Merkle root
      and exactly the selected transactions with their indices, in order. */
  lemma RoundTrip(h: Hasher, txids: seq<Digest>, wanted: seq<bool>, e: Encoding)
    requires txids != [] && |txids| <= MAX_BLOCK_BASE_SIZE / 60 && |wanted| == |txids| && Distinct(txids)
    requires InjectiveOn(h, RootPairs(h, txids))
    requires Padded(Encode(h, txids, wanted), e)
    ensures ExtractMatches(h, |txids|, e) == (Root(h, txids), Matched(txids, wanted, 0, |txids|))
  {
    hide Width, First, InjectiveOn, Distinct, Build, CalcHash, AnyMatch, Matched, TreePairs, Extract;
    var n := |txids|;
    RootPos(n);
    WholeTree(n);
    BuildSize(h, txids, wanted, Height(n), 0);
    var b := Build(h, txids, wanted, Height(n), 0);
    var c := Cursor(0, 0, false, []);
    assert e.bits[0..|b.bits|] == b.bits && e.hashes[0..|b.hashes|] == b.hashes;
    ExtractComplete(h, txids, wanted, e, Height(n), 0, c, TreePairs(h, txids, Height(n), 0));
    MatchedWhole(txids, wanted, First(Height(n), 1));
    assert [] + Matched(txids, wanted, 0, n) == Matched(txids, wanted, 0, n);
    PaddingOk(|b.bits|);
  }

  lemma PaddingOk(k: nat)
    ensures ((k + 7) / 8 * 8 + 7) / 8 == (k + 7) / 8 && k <= (k + 7) / 8 * 8
  {
  }
}
