/** Partial Merkle trees (src/merkleblock.h, src/merkleblock.cpp): the tree, the depth-first
    encoding of a subset of its leaves, and the decoder, as functions.  The node hash is a
    parameter; "no collisions" always means no collision among the pairs actually hashed. */
module MerkleSpec {
  import opened Powers

  datatype Digest = Digest(n: nat)
  const ZERO: Digest := Digest(0)
  type Hasher = (Digest, Digest) -> Digest

  ghost predicate InjectiveOn(h: Hasher, s: set<(Digest, Digest)>) {
    forall x, y | x in s && y in s && h(x.0, x.1) == h(y.0, y.1) :: x == y
  }

  /** CalcTreeWidth: the number of nodes at a height of the tree over n leaves. */
  function Width(n: nat, height: nat): nat { (n + Pow2(height) - 1) / Pow2(height) }

  /** A node has a left child below it, and at most two children. */
  lemma WidthBelow(n: nat, height: nat, pos: nat)
    requires height > 0 && pos < Width(n, height)
    ensures 2 * pos < Width(n, height - 1)
  {
    var w := Pow2(height - 1);
    assert Pow2(height) == 2 * w;
    Ceiling(n, 2 * w, pos);
    Ceiling(n, w, 2 * pos);
    assert 2 * w * pos == w * (2 * pos);
  }

  /** pos is below the rounded-up quotient exactly when its block starts below n. */
  lemma Ceiling(n: nat, w: nat, pos: nat)
    requires w >= 1
    ensures pos < (n + w - 1) / w <==> w * pos < n
  {
    var q, r := (n + w - 1) / w, (n + w - 1) % w;
    assert n + w - 1 == w * q + r;
    if pos < q {
      assert w * pos <= w * (q - 1) by { MulMono(w, pos, q - 1); }
    } else {
      assert w * pos >= w * q by { MulMono(w, q, pos); }
    }
  }

  /** The first leaf below a node. */
  function First(height: nat, pos: nat): nat { Pow2(height) * pos }

  lemma FirstBelow(height: nat, pos: nat)
    ensures height > 0 ==> First(height, pos) == First(height - 1, 2 * pos)
    ensures height == 0 ==> First(height, pos) == pos
    ensures First(height, pos) < First(height, pos + 1)
  {
  }

  lemma WidthIff(n: nat, height: nat, pos: nat)
    ensures pos < Width(n, height) <==> First(height, pos) < n
  {
    Ceiling(n, Pow2(height), pos);
  }

  /** CalcHash. */
  function CalcHash(h: Hasher, txids: seq<Digest>, height: nat, pos: nat): Digest
    requires pos < Width(|txids|, height)
    decreases height
  {
    if height == 0 then
      assert Width(|txids|, 0) == |txids|;
      txids[pos]
    else
      WidthBelow(|txids|, height, pos);
      var left := CalcHash(h, txids, height - 1, 2 * pos);
      var right := if 2 * pos + 1 < Width(|txids|, height - 1) then CalcHash(h, txids, height - 1, 2 * pos + 1) else left;
      h(left, right)
  }

  /** The pairs hashed by CalcHash. */
  ghost function TreePairs(h: Hasher, txids: seq<Digest>, height: nat, pos: nat): set<(Digest, Digest)>
    requires pos < Width(|txids|, height)
    decreases height
  {
    if height == 0 then {}
    else
      WidthBelow(|txids|, height, pos);
      var two := 2 * pos + 1 < Width(|txids|, height - 1);
      var left := CalcHash(h, txids, height - 1, 2 * pos);
      var right := if two then CalcHash(h, txids, height - 1, 2 * pos + 1) else left;
      {(left, right)} + TreePairs(h, txids, height - 1, 2 * pos)
      + if two then TreePairs(h, txids, height - 1, 2 * pos + 1) else {}
  }

  // ------------------------------------------------------------------ encoder

  /** Whether some leaf in [lo, hi) is matched. */
  predicate AnyMatch(wanted: seq<bool>, lo: nat, hi: nat) {
    exists i | lo <= i < hi && i < |wanted| :: wanted[i]
  }

  datatype Encoding = Encoding(bits: seq<bool>, hashes: seq<Digest>)

  function Concat(a: Encoding, b: Encoding): Encoding { Encoding(a.bits + b.bits, a.hashes + b.hashes) }

  /** TraverseAndBuild. */
  function Build(h: Hasher, txids: seq<Digest>, wanted: seq<bool>, height: nat, pos: nat): (e: Encoding)
    requires pos < Width(|txids|, height)
    decreases height
  {
    var m := AnyMatch(wanted, First(height, pos), First(height, pos + 1));
    if height == 0 || !m then Encoding([m], [CalcHash(h, txids, height, pos)])
    else
      WidthBelow(|txids|, height, pos);
      var left := Concat(Encoding([true], []), Build(h, txids, wanted, height - 1, 2 * pos));
      if 2 * pos + 1 < Width(|txids|, height - 1) then Concat(left, Build(h, txids, wanted, height - 1, 2 * pos + 1)) else left
  }

  /** The matched leaves with index in [lo, hi), in order. */
  function Matched(txids: seq<Digest>, wanted: seq<bool>, lo: nat, hi: nat): seq<(Digest, nat)>
    requires |wanted| == |txids|
    decreases hi - lo
  {
    if lo >= hi || lo >= |txids| then []
    else (if wanted[lo] then [(txids[lo], lo)] else []) + Matched(txids, wanted, lo + 1, hi)
  }

  // ------------------------------------------------------------------ decoder

  /** The state of a traversal: cursors, the sticky failure flag, and the matches so far. */
  datatype Cursor = Cursor(bits: nat, hashes: nat, bad: bool, matches: seq<(Digest, nat)>)

  /** TraverseAndExtract on nTransactions, vBits and vHash. */
  function Extract(h: Hasher, n: nat, e: Encoding, height: nat, pos: nat, c: Cursor): (Digest, Cursor)
    decreases height
  {
    if c.bits >= |e.bits| then (ZERO, c.(bad := true))
    else
      var m := e.bits[c.bits];
      var c1 := c.(bits := c.bits + 1);
      if height == 0 || !m then
        if c1.hashes >= |e.hashes| then (ZERO, c1.(bad := true))
        else
          var d := e.hashes[c1.hashes];
          (d, c1.(hashes := c1.hashes + 1, matches := if height == 0 && m then c1.matches + [(d, pos)] else c1.matches))
      else
        var (left, c2) := Extract(h, n, e, height - 1, 2 * pos, c1);
        if 2 * pos + 1 < Width(n, height - 1) then
          var (right, c3) := Extract(h, n, e, height - 1, 2 * pos + 1, c2);
          (h(left, right), if right == left then c3.(bad := true) else c3)
        else (h(left, left), c2)
  }

  /** The pairs hashed by Extract. */
  ghost function ExtractPairs(h: Hasher, n: nat, e: Encoding, height: nat, pos: nat, c: Cursor): set<(Digest, Digest)>
    decreases height
  {
    if c.bits >= |e.bits| || height == 0 || !e.bits[c.bits] then {}
    else
      var c1 := c.(bits := c.bits + 1);
      var (left, c2) := Extract(h, n, e, height - 1, 2 * pos, c1);
      var below := ExtractPairs(h, n, e, height - 1, 2 * pos, c1);
      if 2 * pos + 1 < Width(n, height - 1) then
        var (right, _) := Extract(h, n, e, height - 1, 2 * pos + 1, c2);
        {(left, right)} + below + ExtractPairs(h, n, e, height - 1, 2 * pos + 1, c2)
      else {(left, left)} + below
  }

  /** The height of the tree over n leaves: the first with a single node. */
  function HeightFrom(n: nat, height: nat): nat
    decreases if Width(n, height) > 1 then n + 1 - Pow2(height) else 0
  {
    if Width(n, height) > 1 then
      Taller(n, height);
      HeightFrom(n, height + 1)
    else height
  }

  lemma Taller(n: nat, height: nat)
    requires Width(n, height) > 1
    ensures Pow2(height) < n
  {
    WidthIff(n, height, 1);
  }

  function Height(n: nat): nat { HeightFrom(n, 0) }

  const MAX_BLOCK_BASE_SIZE: nat := 1000000

  /** ExtractMatches, starting from empty lists: the root, or zero on failure, and the matches. */
  function ExtractMatches(h: Hasher, n: nat, e: Encoding): (Digest, seq<(Digest, nat)>) {
    if n == 0 || n > MAX_BLOCK_BASE_SIZE / 60 || |e.hashes| > n || |e.bits| < |e.hashes| then (ZERO, [])
    else
      var (root, c) := Extract(h, n, e, Height(n), 0, Cursor(0, 0, false, []));
      if c.bad || (c.bits + 7) / 8 != (|e.bits| + 7) / 8 || c.hashes != |e.hashes| then (ZERO, c.matches)
      else (root, c.matches)
  }
}
